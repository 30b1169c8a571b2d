/**
 What the codec refuses, and why: the rules of encode and decode as numbered lists, each rule written on the
 fields or octets themselves. Exactly the first broken rule is reported; where none is, the frame is read
 off the octets.
 */
module Rejections {
  import opened Words
  import opened Frames
  import opened Crc
  import opened Codec

  /** The relations between opcode, flags, whether the status is ok, and the size of the payload. */
  predicate Lawful(opcode: bv8, flags: bv8, ok: bool, size: nat) {
    || (opcode == 0x01 && flags == 0 && ok && size == 2)
    || (opcode == 0x02 && flags == 0 && ok && size > 0)
    || (opcode == 0x81 && flags == 1 && ok)
    || (opcode == 0x82 && flags == 1 && ok && size == 0)
    || (opcode == 0xFF && flags == 1 && !ok)
  }

  lemma NoOtherFlag(flags: bv8)
    ensures flags & RESPONSE_FLAG != 0 && flags & !RESPONSE_FLAG == 0 <==> flags == 1
    ensures flags & RESPONSE_FLAG == 0 && flags & !RESPONSE_FLAG == 0 <==> flags == 0
    ensures flags & !RESPONSE_FLAG == 0 <==> flags == 0 || flags == 1
  {
  }

  lemma SemanticsAreLawful(frame: Frame)
    ensures HasValidSemantics(frame) <==> Lawful(frame.opcode, frame.flags, frame.status == 0, |frame.payload|)
  {
    NoOtherFlag(frame.flags);
  }

  // ---------- Encoding ----------

  const ENCODE_REASONS := [UnsupportedVersion, UnsupportedOpcode, PayloadTooLarge, InvalidSemantics]

  /** The k-th rule about frames is broken. */
  predicate FrameBreaks(frame: Frame, k: nat) {
    match k
    case 0 => frame.version != 1
    case 1 => frame.opcode !in {0x01, 0x02, 0x81, 0x82, 0xFF}
    case 2 => |frame.payload| > 256
    case 3 => !Lawful(frame.opcode, frame.flags, frame.status == 0, |frame.payload|)
    case _ => false
  }

  predicate FrameBreaksFirst(frame: Frame, k: nat) {
    FrameBreaks(frame, k) && forall j :: 0 <= j < k ==> !FrameBreaks(frame, j)
  }

  /** A frame is refused with exactly the first rule that it breaks. */
  lemma EncodeRefusals(frame: Frame, e: CodecError)
    ensures Encode(frame) == NotEncoded(e) <==>
            exists k :: 0 <= k < 4 && FrameBreaksFirst(frame, k) && e == ENCODE_REASONS[k]
  {
    hide HasValidSemantics, Lawful, Crc32, Header;
    SemanticsAreLawful(frame);
    if Encode(frame).NotEncoded? {
      var k := if frame.version != 1 then 0
               else if !IsSupportedOpcode(frame.opcode) then 1
               else if |frame.payload| > 256 then 2
               else 3;
      assert FrameBreaksFirst(frame, k);
    }
  }

  // ---------- Decoding ----------

  const DECODE_REASONS := [
    Truncated,
    BadMagic,
    UnsupportedVersion,
    UnsupportedOpcode,
    UnsupportedFlags,
    NonzeroReserved,
    PayloadTooLarge,
    Truncated,
    LengthMismatch,
    ChecksumMismatch,
    InvalidSemantics]

  /** The size of the payload that some octets declare. */
  function DeclaredSize(bytes: Bytes): nat
    requires |bytes| >= 18
  {
    Number(bytes[14..16])
  }

  /** The k-th rule about octets is broken. The later rules speak of octets that are there. */
  predicate Breaks(bytes: Bytes, k: nat) {
    if k == 0 then |bytes| < 18
    else
      && |bytes| >= 18
      && var size := DeclaredSize(bytes);
         match k
         case 1 => bytes[0] != 0x49 || bytes[1] != 0x4D
         case 2 => bytes[2] != 1
         case 3 => bytes[3] !in {0x01, 0x02, 0x81, 0x82, 0xFF}
         case 4 => bytes[4] != 0 && bytes[4] != 1
         case 5 => bytes[5] != 0
         case 6 => size > 256
         case 7 => |bytes| < 18 + size + 4
         case 8 => |bytes| > 18 + size + 4
         case 9 => |bytes| >= 22 && Number(bytes[|bytes| - 4..]) != Value32(Crc32(bytes[..|bytes| - 4]))
         case 10 => !Lawful(bytes[3], bytes[4], Number(bytes[16..18]) == 0, size)
         case _ => false
  }

  predicate BreaksFirst(bytes: Bytes, k: nat) {
    Breaks(bytes, k) && forall j :: 0 <= j < k ==> !Breaks(bytes, j)
  }

  /** No size is reported before a whole frame has been seen, and then that of the frame. */
  function ReportedSize(bytes: Bytes, k: nat): nat {
    if k <= 7 || |bytes| < 18 then 0 else 18 + DeclaredSize(bytes) + 4
  }

  lemma PrologueRules(bytes: Bytes)
    requires |bytes| >= 18
    ensures PrologueError(bytes) ==
            if Breaks(bytes, 1) then Some(BadMagic)
            else if Breaks(bytes, 2) then Some(UnsupportedVersion)
            else if Breaks(bytes, 3) then Some(UnsupportedOpcode)
            else if Breaks(bytes, 4) then Some(UnsupportedFlags)
            else if Breaks(bytes, 5) then Some(NonzeroReserved)
            else None
  {
    hide Number, Crc32, Value32, Lawful;
    NoOtherFlag(bytes[4]);
  }

  lemma NumberAt16(bytes: Bytes, i: nat)
    requires i + 2 <= |bytes|
    ensures Number(bytes[i..i + 2]) == Value16(ReadU16(bytes, i))
  {
    hide Number, Value16, Join16;
    assert bytes[i..i + 2] == [bytes[i], bytes[i + 1]];
    NumberOfTwo(bytes[i], bytes[i + 1]);
  }

  lemma NumberAt32(bytes: Bytes, i: nat)
    requires i + 4 <= |bytes|
    ensures Number(bytes[i..i + 4]) == Value32(ReadU32(bytes, i))
  {
    hide Number, Value32, Join32;
    assert bytes[i..i + 4] == [bytes[i], bytes[i + 1], bytes[i + 2], bytes[i + 3]];
    NumberOfFour(bytes[i], bytes[i + 1], bytes[i + 2], bytes[i + 3]);
  }

  lemma SameDigits(a: nat, b: nat, c: nat, d: nat, a': nat, b': nat, c': nat, d': nat)
    requires b < 0x100 && c < 0x100 && d < 0x100 && b' < 0x100 && c' < 0x100 && d' < 0x100
    requires a * 0x100_0000 + b * 0x1_0000 + c * 0x100 + d == a' * 0x100_0000 + b' * 0x1_0000 + c' * 0x100 + d'
    ensures a == a' && b == b' && c == c' && d == d'
  {
  }

  lemma SameValue32(v: bv32, w: bv32)
    ensures Value32(v) == Value32(w) <==> v == w
  {
    hide Nat, First32, Second32, Third32, Fourth32, Join32;
    if Value32(v) == Value32(w) {
      SameDigits(Nat(First32(v)), Nat(Second32(v)), Nat(Third32(v)), Nat(Fourth32(v)),
                 Nat(First32(w)), Nat(Second32(w)), Nat(Third32(w)), Nat(Fourth32(w)));
      NatInjective(First32(v), First32(w));
      NatInjective(Second32(v), Second32(w));
      NatInjective(Third32(v), Third32(w));
      NatInjective(Fourth32(v), Fourth32(w));
      JoinSplit32(v);
      JoinSplit32(w);
    }
  }

  lemma SameValue16(v: bv16, w: bv16)
    ensures Value16(v) == Value16(w) <==> v == w
  {
    hide Value16, Word16;
    WordOfValue16(v);
    WordOfValue16(w);
  }

  lemma ZeroValue16()
    ensures Value16(0) == 0
  {
  }

  /** The rules after the declared size, in terms of the fields. */
  lemma FrameRules(bytes: Bytes)
    requires |bytes| >= 18
    ensures DeclaredSize(bytes) == Value16(ReadU16(bytes, 14))
    ensures |bytes| >= 22 ==>
              (Breaks(bytes, 9) <==> Crc32(bytes[..|bytes| - 4]) != ReadU32(bytes, |bytes| - 4))
    ensures |bytes| == 18 + DeclaredSize(bytes) + 4 ==>
              (Breaks(bytes, 10) <==> !HasValidSemantics(ReadFrame(bytes)))
  {
    hide Number, Crc32, Value32, Value16, ReadU16, ReadU32, Lawful, HasValidSemantics;
    NumberAt16(bytes, 14);
    NumberAt16(bytes, 16);
    SameValue16(ReadU16(bytes, 16), 0);
    ZeroValue16();
    if |bytes| >= 22 {
      var n := |bytes| - 4;
      assert bytes[n..] == bytes[n..n + 4];
      NumberAt32(bytes, n);
      SameValue32(Crc32(bytes[..n]), ReadU32(bytes, n));
      SemanticsAreLawful(ReadFrame(bytes));
    }
  }

  /** The rules in turn. */
  lemma DecodeByRules(bytes: Bytes)
    ensures var size := ReportedSize(bytes, 8);
            Decode(bytes) ==
            if Breaks(bytes, 0) then Rejected(Truncated, 0)
            else if Breaks(bytes, 1) then Rejected(BadMagic, 0)
            else if Breaks(bytes, 2) then Rejected(UnsupportedVersion, 0)
            else if Breaks(bytes, 3) then Rejected(UnsupportedOpcode, 0)
            else if Breaks(bytes, 4) then Rejected(UnsupportedFlags, 0)
            else if Breaks(bytes, 5) then Rejected(NonzeroReserved, 0)
            else if Breaks(bytes, 6) then Rejected(PayloadTooLarge, 0)
            else if Breaks(bytes, 7) then Rejected(Truncated, 0)
            else if Breaks(bytes, 8) then Rejected(LengthMismatch, size)
            else if Breaks(bytes, 9) then Rejected(ChecksumMismatch, size)
            else if Breaks(bytes, 10) then Rejected(InvalidSemantics, size)
            else Decoded(ReadFrame(bytes), size)
  {
    hide Number, Crc32, Value32, Value16, ReadU16, ReadU32, ReadFrame, Lawful, HasValidSemantics, PrologueError;
    if |bytes| >= 18 {
      PrologueRules(bytes);
      FrameRules(bytes);
    }
  }

  lemma LeastBroken(bytes: Bytes, k: nat) returns (first: nat)
    requires Breaks(bytes, k)
    ensures first <= k && BreaksFirst(bytes, first)
  {
    hide Breaks;
    first := 0;
    while !Breaks(bytes, first)
      invariant first <= k && forall j :: 0 <= j < first ==> !Breaks(bytes, j)
      decreases k - first
    {
      first := first + 1;
    }
  }

  lemma RejectedByFirst(bytes: Bytes, k: nat)
    requires k < 11 && BreaksFirst(bytes, k)
    ensures Decode(bytes) == Rejected(DECODE_REASONS[k], ReportedSize(bytes, k))
  {
    hide Decode, Breaks, DeclaredSize;
    DecodeByRules(bytes);
  }

  /** Octets are rejected with exactly the first rule that they break, and the size that goes with it. */
  lemma DecodeRejections(bytes: Bytes, e: CodecError, n: nat)
    ensures Decode(bytes) == Rejected(e, n) <==>
            exists k :: 0 <= k < 11 && BreaksFirst(bytes, k) && e == DECODE_REASONS[k] && n == ReportedSize(bytes, k)
  {
    hide Decode, Breaks, BreaksFirst, ReportedSize;
    DecodeByRules(bytes);
    if k :| 0 <= k < 11 && BreaksFirst(bytes, k) && e == DECODE_REASONS[k] && n == ReportedSize(bytes, k) {
      RejectedByFirst(bytes, k);
    }
    if Decode(bytes) == Rejected(e, n) {
      var k :| 0 <= k < 11 && Breaks(bytes, k);
      var first := LeastBroken(bytes, k);
      RejectedByFirst(bytes, first);
    }
  }

  // ---------- Accepted octets ----------

  /** Octets spell a frame: every field at its place as a big-endian number, the checksum last. */
  predicate Spells(bytes: Bytes, frame: Frame) {
    var n := 18 + |frame.payload|;
    && |bytes| == n + 4
    && bytes[..6] == [0x49, 0x4D, 0x01, frame.opcode, frame.flags, 0x00]
    && Number(bytes[6..10]) == Value32(frame.requestId)
    && Number(bytes[10..14]) == Value32(frame.address)
    && Number(bytes[14..16]) == |frame.payload|
    && Number(bytes[16..18]) == Value16(frame.status)
    && bytes[18..n] == frame.payload
    && Number(bytes[n..]) == Value32(Crc32(bytes[..n]))
  }

  lemma SpelledPrologue(bytes: Bytes)
    requires |bytes| >= 18 && forall j :: 0 <= j <= 5 ==> !Breaks(bytes, j)
    ensures bytes[..6] == [0x49, 0x4D, 0x01, bytes[3], bytes[4], 0x00]
  {
    hide Number, Crc32, Value32, Lawful;
    assert !Breaks(bytes, 1) && !Breaks(bytes, 2) && !Breaks(bytes, 5);
  }

  /** Exactly the octets that break no rule are accepted, and the frame is what they spell. */
  lemma DecodeAccepts(bytes: Bytes)
    ensures Decode(bytes).Decoded? <==> forall k :: 0 <= k < 11 ==> !Breaks(bytes, k)
    ensures Decode(bytes).Decoded? ==> Spells(bytes, Decode(bytes).frame) && Decode(bytes).consumed == |bytes|
  {
    hide Number, Crc32, Value32, Value16, ReadU16, ReadU32, Lawful;
    DecodeByRules(bytes);
    if Decode(bytes).Decoded? {
      hide Decode;
      assert !Breaks(bytes, 0) && !Breaks(bytes, 7) && !Breaks(bytes, 8) && !Breaks(bytes, 9);
      SpelledPrologue(bytes);
      NumberAt16(bytes, 14);
      NumberAt16(bytes, 16);
      NumberAt32(bytes, 6);
      NumberAt32(bytes, 10);
    }
  }

  /** What goes on the wire for a frame. */
  lemma WireSpells(frame: Frame)
    requires Encodable(frame)
    ensures Spells(Wire(frame), frame)
  {
    hide Encode, Decode, Spells;
    DecodeWire(frame);
    DecodeAccepts(Wire(frame));
  }
}
