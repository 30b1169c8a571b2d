/** Wire types, limits, frames and error categories (include/imlp/types.hpp). */
module Frames {
  import opened Words

  const PROTOCOL_VERSION: bv8 := 1
  const RESPONSE_FLAG: bv8 := 0x01
  const HEADER_SIZE := 18
  const CHECKSUM_SIZE := 4
  const MAXIMUM_PAYLOAD_SIZE := 256
  const MAXIMUM_FRAME_SIZE := HEADER_SIZE + MAXIMUM_PAYLOAD_SIZE + CHECKSUM_SIZE

  // Opcodes are any octet, and statuses any 16-bit word: the decoder casts without a check.

  const READ_REQUEST: bv8 := 0x01
  const WRITE_REQUEST: bv8 := 0x02
  const DATA_RESPONSE: bv8 := 0x81
  const WRITE_ACKNOWLEDGEMENT: bv8 := 0x82
  const ERROR_RESPONSE: bv8 := 0xFF

  const OK: bv16 := 0
  const BAD_REQUEST: bv16 := 1
  const OUT_OF_RANGE: bv16 := 2
  const WRITE_DISABLED: bv16 := 3
  const ACCESS_DENIED: bv16 := 4
  const INTERNAL_ERROR: bv16 := 5

  datatype CodecError =
    | Truncated
    | BadMagic
    | UnsupportedVersion
    | UnsupportedOpcode
    | UnsupportedFlags
    | NonzeroReserved
    | PayloadTooLarge
    | LengthMismatch
    | ChecksumMismatch
    | InvalidSemantics

  datatype Frame = Frame(
    version: bv8,
    opcode: bv8,
    flags: bv8,
    requestId: bv32,
    address: bv32,
    status: bv16,
    payload: Bytes)

  datatype EncodeResult = Encoded(bytes: Bytes) | NotEncoded(error: CodecError)

  datatype DecodeResult = Decoded(frame: Frame, consumed: nat) | Rejected(error: CodecError, consumed: nat)

  predicate IsSupportedOpcode(opcode: bv8) {
    opcode == READ_REQUEST || opcode == WRITE_REQUEST || opcode == DATA_RESPONSE ||
    opcode == WRITE_ACKNOWLEDGEMENT || opcode == ERROR_RESPONSE
  }

  /** The relations between opcode, flags, status and payload. */
  predicate HasValidSemantics(frame: Frame) {
    var isResponse := frame.flags & RESPONSE_FLAG != 0;
    var expectsResponseFlag :=
      frame.opcode == DATA_RESPONSE || frame.opcode == WRITE_ACKNOWLEDGEMENT || frame.opcode == ERROR_RESPONSE;
    if isResponse != expectsResponseFlag then false
    else if frame.flags & !RESPONSE_FLAG != 0 then false
    else if frame.opcode == READ_REQUEST then frame.status == OK && |frame.payload| == 2
    else if frame.opcode == WRITE_REQUEST then frame.status == OK && frame.payload != []
    else if frame.opcode == DATA_RESPONSE then frame.status == OK
    else if frame.opcode == WRITE_ACKNOWLEDGEMENT then frame.status == OK && frame.payload == []
    else frame.opcode == ERROR_RESPONSE && frame.status != OK
  }
}
