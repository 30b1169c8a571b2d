/** The protocol simulator and its write policy (src/server.cpp). */
module Server {
  import opened Words
  import opened Frames
  import opened Codec
  import opened Memory

  datatype Policy = Policy(writesEnabled: bool, allowBegin: U32, allowEnd: U32)

  const DEFAULT_POLICY := Policy(false, 0x0100, 0x07FF)

  datatype Detail =
    | Undecodable(error: CodecError)
    | ReadOk
    | ReadRejected
    | WriteDisabled
    | OutsideWriteAllowlist
    | MemoryWriteRejected
    | WriteOk
    | RequestOpcodeRequired
    | ResponseEncodingFailed

  datatype Event = Event(requestDecoded: bool, requestId: bv32, status: bv16, detail: Detail)

  datatype HandleResult = HandleResult(response: Bytes, event: Event)

  /** Arithmetic on std::uint64_t. */
  function U64(n: int): (r: nat)
    ensures r < 0x1_0000_0000_0000_0000
  {
    n % 0x1_0000_0000_0000_0000
  }

  predicate InAllowlist(policy: Policy, address: int) {
    policy.allowBegin <= address <= policy.allowEnd
  }

  /** Whether the whole non-empty range lies in the inclusive allowlist, even one that ends at 0xffffffff. */
  predicate WriteIsAllowed(policy: Policy, address: U32, length: nat)
    ensures WriteIsAllowed(policy, address, length) <==>
            length > 0 && forall a :: address <= a < address + length ==> InAllowlist(policy, a)
  {
    assert !InAllowlist(policy, address) <==> address < policy.allowBegin || address > policy.allowEnd;
    if length == 0 || address < policy.allowBegin || address > policy.allowEnd then false
    else
      var available := U64(U64(policy.allowEnd - address) + 1);
      assert available == policy.allowEnd - address + 1;
      assert InAllowlist(policy, address + length - 1) <==> length <= available;
      length <= available
  }

  function TextPayload(text: string): (r: Bytes)
    ensures |r| <= MAXIMUM_PAYLOAD_SIZE
  {
    var length := if |text| < MAXIMUM_PAYLOAD_SIZE then |text| else MAXIMUM_PAYLOAD_SIZE;
    seq(length, i requires 0 <= i < length => CharOctet(text[i]))
  }

  method BuildTextPayload(text: string) returns (bytes: Bytes)
    ensures bytes == TextPayload(text)
    ensures |bytes| == if |text| < 256 then |text| else 256
    ensures forall i :: 0 <= i < |bytes| ==> Nat(bytes[i]) == text[i] as int % 0x100
  {
    hide CharOctet, Nat;
    var length := if |text| < MAXIMUM_PAYLOAD_SIZE then |text| else MAXIMUM_PAYLOAD_SIZE;
    bytes := [];
    var index := 0;
    while index < length
      invariant 0 <= index <= length && |bytes| == index
      invariant forall i :: 0 <= i < index ==> bytes[i] == CharOctet(text[i])
    {
      bytes := bytes + [CharOctet(text[index])];
      index := index + 1;
    }
    TextPayloadCodes(text);
  }

  lemma TextPayloadCodes(text: string)
    ensures |TextPayload(text)| == if |text| < 256 then |text| else 256
    ensures forall i :: 0 <= i < |TextPayload(text)| ==> Nat(TextPayload(text)[i]) == text[i] as int % 0x100
  {
    hide Nat, Octet;
  }

  /** What a response says, before it is put into a frame. */
  datatype Answer = Answer(opcode: bv8, status: bv16, payload: Bytes, detail: Detail)

  function ErrorAnswer(status: bv16, text: string, detail: Detail): Answer {
    Answer(ERROR_RESPONSE, status, TextPayload(text), detail)
  }

  function RequestedLength(payload: Bytes): nat
    requires |payload| >= 2
  {
    Value16(ReadU16(payload, 0))
  }

  /** What is answered to a read of a range. */
  function ReadAnswer(m: Contents, address: U32, length: nat): Answer {
    var result := ReadRange(m, address, length);
    if result.status == OK then Answer(DATA_RESPONSE, OK, result.data, ReadOk)
    else ErrorAnswer(result.status, "read_rejected", ReadRejected)
  }

  /** What is answered to a write of a range. */
  function WriteAnswer(policy: Policy, address: U32, length: nat): Answer {
    if !policy.writesEnabled then ErrorAnswer(WRITE_DISABLED, "write_disabled", WriteDisabled)
    else if !WriteIsAllowed(policy, address, length) then
      ErrorAnswer(ACCESS_DENIED, "outside_write_allowlist", OutsideWriteAllowlist)
    else if WriteStatus(address, length) != OK then
      ErrorAnswer(WriteStatus(address, length), "memory_write_rejected", MemoryWriteRejected)
    else Answer(WRITE_ACKNOWLEDGEMENT, OK, [], WriteOk)
  }

  function AnswerTo(policy: Policy, m: Contents, request: Frame): Answer
    requires HasValidSemantics(request)
  {
    var address := Value32(request.address);
    if request.opcode == READ_REQUEST then ReadAnswer(m, address, RequestedLength(request.payload))
    else if request.opcode == WRITE_REQUEST then WriteAnswer(policy, address, |request.payload|)
    else ErrorAnswer(BAD_REQUEST, "request_opcode_required", RequestOpcodeRequired)
  }

  /** Policy and map both admit a write. */
  predicate Admits(policy: Policy, address: U32, length: nat) {
    policy.writesEnabled && WriteIsAllowed(policy, address, length) && WriteStatus(address, length) == OK
  }

  function MemoryAfter(policy: Policy, m: Contents, request: Frame): Contents {
    if request.opcode == WRITE_REQUEST && Admits(policy, Value32(request.address), |request.payload|) then
      Overlay(m, Value32(request.address), request.payload)
    else m
  }

  function ResponseFrame(request: Frame, answer: Answer): Frame {
    Frame(PROTOCOL_VERSION, answer.opcode, RESPONSE_FLAG, request.requestId, request.address,
          answer.status, answer.payload)
  }

  function MakeResponse(request: Frame, answer: Answer): HandleResult {
    match Encode(ResponseFrame(request, answer))
    case NotEncoded(_) => HandleResult([], Event(true, request.requestId, INTERNAL_ERROR, ResponseEncodingFailed))
    case Encoded(bytes) => HandleResult(bytes, Event(true, request.requestId, answer.status, answer.detail))
  }

  lemma DecodedIsValid(bytes: Bytes)
    requires Decode(bytes).Decoded?
    ensures HasValidSemantics(Decode(bytes).frame)
    ensures |Decode(bytes).frame.payload| <= MAXIMUM_PAYLOAD_SIZE
    ensures Decode(bytes).frame.version == PROTOCOL_VERSION
  {
    hide HasValidSemantics;
  }

  function Serve(policy: Policy, m: Contents, request: Bytes): (Contents, HandleResult) {
    match Decode(request)
    case Rejected(error, _) => (m, HandleResult([], Event(false, 0, BAD_REQUEST, Undecodable(error))))
    case Decoded(frame, _) =>
      DecodedIsValid(request);
      (MemoryAfter(policy, m, frame), MakeResponse(frame, AnswerTo(policy, m, frame)))
  }

  class MemoryServer {
    const policy: Policy
    const memory: MemoryMap

    ghost predicate Valid() {
      memory.Valid()
    }

    ghost function Value(): Contents
      requires Valid()
      reads memory.bytes
    {
      memory.Value()
    }

    constructor (policy: Policy)
      ensures Valid() && fresh(memory) && fresh(memory.bytes)
      ensures this.policy == policy && Value() == Initial() && IsFresh(Value())
    {
      this.policy := policy;
      memory := new MemoryMap();
    }

    method Handle(requestBytes: Bytes) returns (result: HandleResult)
      requires Valid()
      modifies memory.bytes
      ensures (Value(), result) == Serve(policy, old(Value()), requestBytes)
    {
      hide Decode, HasValidSemantics, RequestedLength, Value32, ReadRange, Encode, CharOctet, Initial;
      var decoded := Decode(requestBytes);
      if decoded.Rejected? {
        return HandleResult([], Event(false, 0, BAD_REQUEST, Undecodable(decoded.error)));
      }
      var request := decoded.frame;
      DecodedIsValid(requestBytes);
      if request.opcode == READ_REQUEST {
        ValidRead(request);
        var length := RequestedLength(request.payload);
        var read := memory.Read(Value32(request.address), length);
        if read.status == OK {
          result := Respond(request, DATA_RESPONSE, OK, read.data, ReadOk);
          return;
        }
        var text := BuildTextPayload("read_rejected");
        result := Respond(request, ERROR_RESPONSE, read.status, text, ReadRejected);
        return;
      }
      if request.opcode == WRITE_REQUEST {
        if !policy.writesEnabled {
          var text := BuildTextPayload("write_disabled");
          result := Respond(request, ERROR_RESPONSE, WRITE_DISABLED, text, WriteDisabled);
          return;
        }
        if !WriteIsAllowed(policy, Value32(request.address), |request.payload|) {
          var text := BuildTextPayload("outside_write_allowlist");
          result := Respond(request, ERROR_RESPONSE, ACCESS_DENIED, text, OutsideWriteAllowlist);
          return;
        }
        var status := memory.Write(Value32(request.address), request.payload);
        if status != OK {
          var text := BuildTextPayload("memory_write_rejected");
          result := Respond(request, ERROR_RESPONSE, status, text, MemoryWriteRejected);
          return;
        }
        result := Respond(request, WRITE_ACKNOWLEDGEMENT, OK, [], WriteOk);
        return;
      }
      var text := BuildTextPayload("request_opcode_required");
      result := Respond(request, ERROR_RESPONSE, BAD_REQUEST, text, RequestOpcodeRequired);
    }

    method Respond(request: Frame, opcode: bv8, status: bv16, payload: Bytes,
        detail: Detail) returns (result: HandleResult)
      ensures result == MakeResponse(request, Answer(opcode, status, payload, detail))
    {
      var response := Frame(PROTOCOL_VERSION, opcode, RESPONSE_FLAG, request.requestId, request.address,
                            status, payload);
      var encoded := EncodeFrame(response);
      if encoded.NotEncoded? {
        return HandleResult([], Event(true, request.requestId, INTERNAL_ERROR, ResponseEncodingFailed));
      }
      return HandleResult(encoded.bytes, Event(true, request.requestId, status, detail));
    }
  }

  lemma ValidRead(request: Frame)
    requires HasValidSemantics(request) && request.opcode == READ_REQUEST
    ensures |request.payload| == 2
  {
  }

  // ---------- Responses ----------

  lemma AnswerFits(policy: Policy, m: Contents, request: Frame)
    requires HasValidSemantics(request)
    ensures var answer := AnswerTo(policy, m, request);
            && |answer.payload| <= MAXIMUM_PAYLOAD_SIZE
            && (answer.opcode == ERROR_RESPONSE <==> answer.status != OK)
            && answer.opcode in {DATA_RESPONSE, WRITE_ACKNOWLEDGEMENT, ERROR_RESPONSE}
            && (answer.opcode == WRITE_ACKNOWLEDGEMENT ==> answer.payload == [])
            && (answer.opcode == WRITE_ACKNOWLEDGEMENT <==>
                request.opcode == WRITE_REQUEST && Admits(policy, Value32(request.address), |request.payload|))
            && answer.detail != ResponseEncodingFailed
            && (answer.detail == WriteOk <==> answer.opcode == WRITE_ACKNOWLEDGEMENT)
  {
    hide Value32, RequestedLength, CharOctet;
  }

  lemma ResponseEncodable(request: Frame, answer: Answer)
    requires |answer.payload| <= MAXIMUM_PAYLOAD_SIZE
    requires answer.opcode == ERROR_RESPONSE <==> answer.status != OK
    requires answer.opcode in {DATA_RESPONSE, WRITE_ACKNOWLEDGEMENT, ERROR_RESPONSE}
    requires answer.opcode == WRITE_ACKNOWLEDGEMENT ==> answer.payload == []
    ensures Encodable(ResponseFrame(request, answer))
  {
    hide Covered;
  }

  /** The response to a decodable request is the encoding of one frame, and the event agrees with it. */
  lemma ResponseIsWire(policy: Policy, m: Contents, request: Bytes)
    requires Decode(request).Decoded?
    ensures HasValidSemantics(Decode(request).frame)
    ensures var frame := Decode(request).frame;
            var answer := AnswerTo(policy, m, frame);
            && Encodable(ResponseFrame(frame, answer))
            && Serve(policy, m, request).1 ==
               HandleResult(Wire(ResponseFrame(frame, answer)),
                            Event(true, frame.requestId, answer.status, answer.detail))
  {
    hide Decode, Encode, HasValidSemantics, AnswerTo;
    DecodedIsValid(request);
    var frame := Decode(request).frame;
    AnswerFits(policy, m, frame);
    ResponseEncodable(frame, AnswerTo(policy, m, frame));
  }

  /** Every decodable request is answered, and the answer is correlated; encoding it never fails. */
  lemma EveryRequestAnswered(policy: Policy, m: Contents, bytes: Bytes)
    requires Decode(bytes).Decoded?
    ensures var request, result := Decode(bytes).frame, Serve(policy, m, bytes).1;
            var response := Decode(result.response);
            && response.Decoded? && response.consumed == |result.response|
            && response.frame.requestId == request.requestId == result.event.requestId
            && response.frame.address == request.address
            && response.frame.flags == RESPONSE_FLAG
            && response.frame.status == result.event.status
            && (response.frame.opcode == ERROR_RESPONSE <==> result.event.status != OK)
            && result.event.requestDecoded
            && result.event.detail != ResponseEncodingFailed
  {
    hide Decode, Encode, HasValidSemantics, AnswerTo;
    ResponseIsWire(policy, m, bytes);
    var frame := Decode(bytes).frame;
    AnswerFits(policy, m, frame);
    DecodeWire(ResponseFrame(frame, AnswerTo(policy, m, frame)));
  }

  // Statuses by their numbers on the wire: 0 ok, 1 bad request, 2 out of range, 3 write disabled, 4 access denied.

  /** The status of a read, told from its range alone. */
  predicate ReadStatusIs(address: U32, length: nat, status: bv16) {
    && (status == 0 <==> 1 <= length <= 256 && address + length <= 0x800)
    && (status == 4 <==> 1 <= length <= 256 && 0x800 < address + length <= 0x1000)
    && (status == 2 <==> length == 0 || length > 256 || address + length > 0x1000)
  }

  /** The status of a write of n octets, told from the policy and the regions alone. */
  predicate WriteStatusIs(policy: Policy, address: U32, n: nat, status: bv16) {
    var allowed := forall a :: address <= a < address + n ==> InAllowlist(policy, a);
    var writable := 0x100 <= address && address + n <= 0x800;
    && (status == 0 <==> policy.writesEnabled && allowed && writable)
    && (status == 3 <==> !policy.writesEnabled)
    && (status == 4 <==> policy.writesEnabled && (!allowed || (address + n <= 0x1000 && !writable)))
    && (status == 2 <==> policy.writesEnabled && allowed && address + n > 0x1000)
  }

  /** The status of the response to a request. */
  predicate StatusIs(policy: Policy, request: Frame, status: bv16) {
    var address, n := Value32(request.address), |request.payload|;
    if request.opcode == 0x01 then n == 2 && ReadStatusIs(address, Number(request.payload), status)
    else if request.opcode == 0x02 then n > 0 && WriteStatusIs(policy, address, n, status)
    else status == 1
  }

  /** The status on the wire is the one in the table. */
  lemma ResponseStatus(policy: Policy, m: Contents, bytes: Bytes)
    requires Decode(bytes).Decoded?
    ensures var response := Decode(Serve(policy, m, bytes).1.response);
            response.Decoded? && StatusIs(policy, Decode(bytes).frame, response.frame.status)
  {
    hide Decode, Encode, HasValidSemantics, AnswerTo, StatusIs;
    ResponseIsWire(policy, m, bytes);
    DecodedIsValid(bytes);
    var request := Decode(bytes).frame;
    DecodeWire(ResponseFrame(request, AnswerTo(policy, m, request)));
    AnswerStatus(policy, m, request);
  }

  lemma AnswerStatus(policy: Policy, m: Contents, request: Frame)
    requires HasValidSemantics(request) && |request.payload| <= MAXIMUM_PAYLOAD_SIZE
    ensures StatusIs(policy, request, AnswerTo(policy, m, request).status)
  {
    hide Value32, CharOctet, RequestedLength, Number;
    var address := Value32(request.address);
    WriteSucceeds(address, |request.payload|);
    if request.opcode == READ_REQUEST {
      RequestedIsNumber(request.payload);
      ReadSucceeds(m, address, RequestedLength(request.payload));
    }
  }

  lemma RequestedIsNumber(payload: Bytes)
    requires |payload| == 2
    ensures RequestedLength(payload) == Number(payload)
  {
    hide Number, Value16, Join16;
    assert payload == [payload[0], payload[1]];
    NumberOfTwo(payload[0], payload[1]);
  }

  /** What the server did with a request, told from the policy and the regions alone. */
  function DetailFor(policy: Policy, request: Frame): Detail {
    var address, n := Value32(request.address), |request.payload|;
    if request.opcode == 0x01 then
      var length := Number(request.payload);
      if 1 <= length <= 256 && address + length <= 0x800 then ReadOk else ReadRejected
    else if request.opcode == 0x02 then
      if !policy.writesEnabled then WriteDisabled
      else if exists a :: address <= a < address + n && !InAllowlist(policy, a) then OutsideWriteAllowlist
      else if address < 0x100 || address + n > 0x800 then MemoryWriteRejected
      else WriteOk
    else RequestOpcodeRequired
  }

  /** Octets that are the characters of a text. */
  predicate IsText(octets: Bytes, text: string) {
    |octets| == |text| && forall i :: 0 <= i < |text| ==> Nat(octets[i]) == text[i] as int
  }

  /** The opcode and payload that go with what was done. */
  predicate ContentIs(m: Contents, request: Frame, detail: Detail, opcode: bv8, payload: Bytes) {
    match detail
    case ReadOk =>
      && opcode == 0x81 && |payload| == Number(request.payload)
      && var address := Value32(request.address);
         address + |payload| <= 0x1000 && forall i :: 0 <= i < |payload| ==> payload[i] == m[address + i]
    case WriteOk => opcode == 0x82 && payload == []
    case ReadRejected => opcode == 0xFF && IsText(payload, "read_rejected")
    case WriteDisabled => opcode == 0xFF && IsText(payload, "write_disabled")
    case OutsideWriteAllowlist => opcode == 0xFF && IsText(payload, "outside_write_allowlist")
    case MemoryWriteRejected => opcode == 0xFF && IsText(payload, "memory_write_rejected")
    case RequestOpcodeRequired => opcode == 0xFF && IsText(payload, "request_opcode_required")
    case _ => false
  }

  predicate IsAscii(text: string) {
    |text| <= 256 && forall i :: 0 <= i < |text| ==> text[i] as int < 0x80
  }

  lemma TextsAreAscii()
    ensures IsAscii("read_rejected") && IsAscii("write_disabled") && IsAscii("outside_write_allowlist")
    ensures IsAscii("memory_write_rejected") && IsAscii("request_opcode_required")
  {
  }

  lemma AsciiPayload(text: string)
    requires IsAscii(text)
    ensures IsText(TextPayload(text), text)
  {
    hide TextPayload, Nat;
    TextPayloadCodes(text);
  }

  lemma ReadContent(m: Contents, request: Frame)
    requires |request.payload| == 2
    ensures var answer := ReadAnswer(m, Value32(request.address), RequestedLength(request.payload));
            var length := Number(request.payload);
            && answer.detail ==
               (if 1 <= length <= 256 && Value32(request.address) + length <= 0x800 then ReadOk else ReadRejected)
            && ContentIs(m, request, answer.detail, answer.opcode, answer.payload)
  {
    hide Value32, Number, RequestedLength, ReadRange, TextPayload, Nat;
    RequestedIsNumber(request.payload);
    ReadSucceeds(m, Value32(request.address), RequestedLength(request.payload));
    TextsAreAscii();
    AsciiPayload("read_rejected");
  }

  lemma WriteContent(policy: Policy, m: Contents, request: Frame)
    requires 0 < |request.payload| <= 256 && request.opcode == 0x02
    ensures var answer := WriteAnswer(policy, Value32(request.address), |request.payload|);
            && answer.detail == DetailFor(policy, request)
            && ContentIs(m, request, answer.detail, answer.opcode, answer.payload)
  {
    hide Value32, Number, TextPayload, Nat;
    WriteSucceeds(Value32(request.address), |request.payload|);
    TextsAreAscii();
    AsciiPayload("write_disabled");
    AsciiPayload("outside_write_allowlist");
    AsciiPayload("memory_write_rejected");
  }

  lemma AnswerContent(policy: Policy, m: Contents, request: Frame)
    requires HasValidSemantics(request) && |request.payload| <= 256
    ensures var answer := AnswerTo(policy, m, request);
            && answer.detail == DetailFor(policy, request)
            && ContentIs(m, request, answer.detail, answer.opcode, answer.payload)
  {
    hide Value32, Number, TextPayload, RequestedLength, Nat, ContentIs, ReadAnswer, WriteAnswer;
    if request.opcode == READ_REQUEST {
      ReadContent(m, request);
    } else if request.opcode == WRITE_REQUEST {
      WriteContent(policy, m, request);
    } else {
      TextsAreAscii();
      AsciiPayload("request_opcode_required");
      OtherContent(m, request);
    }
  }

  lemma OtherContent(m: Contents, request: Frame)
    requires IsText(TextPayload("request_opcode_required"), "request_opcode_required")
    ensures ContentIs(m, request, RequestOpcodeRequired, 0xFF, TextPayload("request_opcode_required"))
  {
    hide TextPayload;
  }

  /** The whole response, field by field, and the event that goes with it. */
  lemma ResponseContent(policy: Policy, m: Contents, bytes: Bytes)
    requires Decode(bytes).Decoded?
    ensures var request, result := Decode(bytes).frame, Serve(policy, m, bytes).1;
            var response := Decode(result.response);
            && response.Decoded?
            && var frame := response.frame;
               && frame.version == 1 && frame.flags == 1
               && frame.requestId == request.requestId && frame.address == request.address
               && ContentIs(m, request, DetailFor(policy, request), frame.opcode, frame.payload)
               && result.event == Event(true, request.requestId, frame.status, DetailFor(policy, request))
  {
    hide Decode, Encode, HasValidSemantics, AnswerTo, DetailFor, ContentIs;
    ResponseIsWire(policy, m, bytes);
    DecodedIsValid(bytes);
    var request := Decode(bytes).frame;
    DecodeWire(ResponseFrame(request, AnswerTo(policy, m, request)));
    AnswerContent(policy, m, request);
  }

  // ---------- Whole runs ----------

  /** The memory after any sequence of byte strings, decodable or not. */
  function Run(policy: Policy, m: Contents, requests: seq<Bytes>): Contents
    decreases |requests|
  {
    if requests == [] then m else Run(policy, Serve(policy, m, requests[0]).0, requests[1..])
  }

  /** Input that does not decode changes nothing and is not answered; the event keeps the reason, as status 1. */
  lemma UndecodableIgnored(policy: Policy, m: Contents, bytes: Bytes)
    ensures Serve(policy, m, bytes).1.response == [] <==> Decode(bytes).Rejected?
    ensures Decode(bytes).Rejected? ==> Serve(policy, m, bytes).0 == m
    ensures Decode(bytes).Rejected? ==>
              Serve(policy, m, bytes).1.event == Event(false, 0, 1, Undecodable(Decode(bytes).error))
  {
    hide Decode;
    if Decode(bytes).Decoded? {
      EveryRequestAnswered(policy, m, bytes);
      assert Decode([]).Rejected? by { EmptyRejected(); }
    }
  }

  lemma EmptyRejected()
    ensures Decode([]).Rejected?
  {
  }

  /** One request can touch an address only inside the allowlist and 0x0100..0x07ff, with writes enabled. */
  lemma StepSafety(policy: Policy, m: Contents, request: Bytes, a: nat)
    requires a < CAPACITY
    requires !(policy.writesEnabled && InAllowlist(policy, a) && 0x100 <= a <= 0x7FF)
    ensures Serve(policy, m, request).0[a] == m[a]
  {
    hide Decode, HasValidSemantics, AnswerTo, MakeResponse, Value32;
    if Decode(request).Decoded? {
      var frame := Decode(request).frame;
      WriteSucceeds(Value32(frame.address), |frame.payload|);
    }
  }

  /** Region safety over every run. */
  lemma {:induction false} RegionSafety(policy: Policy, m: Contents, requests: seq<Bytes>, a: nat)
    requires a < CAPACITY
    requires !(policy.writesEnabled && InAllowlist(policy, a) && 0x100 <= a <= 0x7FF)
    ensures Run(policy, m, requests)[a] == m[a]
    decreases |requests|
  {
    hide Serve;
    if requests != [] {
      StepSafety(policy, m, requests[0], a);
      RegionSafety(policy, Serve(policy, m, requests[0]).0, requests[1..], a);
    }
  }

  /** With writes disabled no run changes anything. */
  lemma DisabledWrites(policy: Policy, m: Contents, requests: seq<Bytes>)
    requires !policy.writesEnabled
    ensures Run(policy, m, requests) == m
  {
    forall a | 0 <= a < CAPACITY ensures Run(policy, m, requests)[a] == m[a] {
      RegionSafety(policy, m, requests, a);
    }
  }

  /** A server with the policy it has by default is read-only. */
  lemma DefaultIsReadOnly(m: Contents, requests: seq<Bytes>)
    ensures Run(DEFAULT_POLICY, m, requests) == m
  {
    DisabledWrites(DEFAULT_POLICY, m, requests);
  }

  /** Once writes are enabled, the default allowlist admits exactly what the map admits. */
  lemma DefaultAllowlist(address: U32, length: nat)
    ensures Admits(DEFAULT_POLICY.(writesEnabled := true), address, length) <==>
            1 <= length <= 256 && 0x100 <= address && address + length <= 0x800
  {
    hide WriteStatus;
    WriteSucceeds(address, length);
  }

  datatype StoredWrite = StoredWrite(address: nat, data: Bytes)

  predicate Covers(w: StoredWrite, a: nat) {
    w.address <= a < w.address + |w.data|
  }

  /** Whether the octets of a response are an acknowledgement, as a client would see it. */
  predicate IsAcknowledgement(response: Bytes) {
    Decode(response).Decoded? && Decode(response).frame.opcode == WRITE_ACKNOWLEDGEMENT
  }

  /** The writes of a run whose response is an acknowledgement, in order. */
  function Acknowledged(policy: Policy, m: Contents, requests: seq<Bytes>): seq<StoredWrite>
    decreases |requests|
  {
    if requests == [] then []
    else
      var (after, result) := Serve(policy, m, requests[0]);
      var rest := Acknowledged(policy, after, requests[1..]);
      if IsAcknowledgement(result.response) && Decode(requests[0]).Decoded? then
        var frame := Decode(requests[0]).frame;
        [StoredWrite(Value32(frame.address), frame.payload)] + rest
      else rest
  }

  /** The octet the last write covering an address left there. */
  function LastWritten(writes: seq<StoredWrite>, a: nat): Option<bv8> {
    if writes == [] then None
    else
      var last := writes[|writes| - 1];
      if Covers(last, a) then Some(last.data[a - last.address]) else LastWritten(writes[..|writes| - 1], a)
  }

  function ValueAt(writes: seq<StoredWrite>, a: nat, otherwise: bv8): bv8 {
    match LastWritten(writes, a)
    case Some(b) => b
    case None => otherwise
  }

  lemma {:induction false} LastWrittenFirst(w: StoredWrite, writes: seq<StoredWrite>, a: nat, otherwise: bv8)
    ensures ValueAt([w] + writes, a, otherwise) ==
            ValueAt(writes, a, if Covers(w, a) then w.data[a - w.address] else otherwise)
    decreases |writes|
  {
    var all := [w] + writes;
    if writes == [] {
      assert all[..|all| - 1] == [];
    } else {
      var n := |writes|;
      assert all[..n] == [w] + writes[..n - 1];
      LastWrittenFirst(w, writes[..n - 1], a, otherwise);
    }
  }

  /** One request: applied exactly when it is acknowledged, and then as a whole. */
  lemma StepIsAcknowledged(policy: Policy, m: Contents, request: Bytes)
    ensures IsAcknowledgement(Serve(policy, m, request).1.response) <==>
            Decode(request).Decoded? && Decode(request).frame.opcode == WRITE_REQUEST &&
            Admits(policy, Value32(Decode(request).frame.address), |Decode(request).frame.payload|)
    ensures Serve(policy, m, request).0 ==
            if IsAcknowledgement(Serve(policy, m, request).1.response) then
              Overlay(m, Value32(Decode(request).frame.address), Decode(request).frame.payload)
            else m
  {
    hide Decode, Encode, HasValidSemantics, AnswerTo, Value32;
    UndecodableIgnored(policy, m, request);
    EmptyRejected();
    if Decode(request).Decoded? {
      ResponseIsWire(policy, m, request);
      var frame := Decode(request).frame;
      AnswerFits(policy, m, frame);
      DecodeWire(ResponseFrame(frame, AnswerTo(policy, m, frame)));
    }
  }

  /** At every reachable state each address holds the octet of the last acknowledged write covering it. */
  lemma {:induction false} MemoryIsFoldOfAcknowledged(policy: Policy, m: Contents, requests: seq<Bytes>, a: nat)
    requires a < CAPACITY
    ensures Run(policy, m, requests)[a] == ValueAt(Acknowledged(policy, m, requests), a, m[a])
    decreases |requests|
  {
    hide Serve, Decode, IsAcknowledgement, ValueAt, Value32;
    if requests == [] {
      assert Acknowledged(policy, m, requests) == [];
      NothingWritten(a, m[a]);
    } else {
      var request := requests[0];
      StepIsAcknowledged(policy, m, request);
      var after := Serve(policy, m, request).0;
      MemoryIsFoldOfAcknowledged(policy, after, requests[1..], a);
      if IsAcknowledgement(Serve(policy, m, request).1.response) {
        var frame := Decode(request).frame;
        var w := StoredWrite(Value32(frame.address), frame.payload);
        LastWrittenFirst(w, Acknowledged(policy, after, requests[1..]), a, m[a]);
      }
    }
  }

  lemma NothingWritten(a: nat, otherwise: bv8)
    ensures ValueAt([], a, otherwise) == otherwise
  {
  }

  /** A read admitted at the end of a run is answered with what the acknowledged writes left in its range. */
  lemma ReadSeesAcknowledged(policy: Policy, m: Contents, requests: seq<Bytes>, read: Bytes)
    requires Decode(read).Decoded? && Decode(read).frame.opcode == READ_REQUEST
    ensures |Decode(read).frame.payload| == 2
    ensures var frame := Decode(read).frame;
            var address, length := Value32(frame.address), RequestedLength(frame.payload);
            var response := Decode(Serve(policy, Run(policy, m, requests), read).1.response);
            && response.Decoded?
            && (response.frame.opcode == DATA_RESPONSE <==> 1 <= length <= 256 && address + length <= 0x800)
            && (response.frame.opcode == DATA_RESPONSE ==>
                  && |response.frame.payload| == length
                  && forall i :: 0 <= i < length ==>
                       response.frame.payload[i] ==
                       ValueAt(Acknowledged(policy, m, requests), address + i, m[address + i]))
  {
    hide Decode, Encode, HasValidSemantics, Value32, RequestedLength, Run, Acknowledged, ValueAt;
    var now := Run(policy, m, requests);
    ResponseIsWire(policy, now, read);
    var frame := Decode(read).frame;
    ValidRead(frame);
    var address, length := Value32(frame.address), RequestedLength(frame.payload);
    ReadSucceeds(now, address, length);
    DecodeWire(ResponseFrame(frame, AnswerTo(policy, now, frame)));
    if 1 <= length <= 256 && address + length <= 0x800 {
      forall i | 0 <= i < length
        ensures Slice(now, address, length)[i] ==
                ValueAt(Acknowledged(policy, m, requests), address + i, m[address + i])
      {
        MemoryIsFoldOfAcknowledged(policy, m, requests, address + i);
      }
    }
  }

  predicate Untouched(writes: seq<StoredWrite>, a: nat) {
    forall w :: w in writes ==> !Covers(w, a)
  }

  lemma {:induction false} NotCovered(writes: seq<StoredWrite>, a: nat, otherwise: bv8)
    requires Untouched(writes, a)
    ensures ValueAt(writes, a, otherwise) == otherwise
  {
    if writes != [] {
      NotCovered(writes[..|writes| - 1], a, otherwise);
    }
  }

  /** From a fresh memory on, a read returns the fresh octet of every address that no acknowledged write covers. */
  lemma UnwrittenReads(policy: Policy, m: Contents, requests: seq<Bytes>, read: Bytes, i: nat)
    requires IsFresh(m)
    requires Decode(read).Decoded? && Decode(read).frame.opcode == 0x01
    ensures var address, length := Value32(Decode(read).frame.address), Number(Decode(read).frame.payload);
            var response := Decode(Serve(policy, Run(policy, m, requests), read).1.response);
            && response.Decoded?
            && (1 <= length <= 256 && address + length <= 0x800 ==>
                  && response.frame.opcode == 0x81 && |response.frame.payload| == length
                  && (i < length && Untouched(Acknowledged(policy, m, requests), address + i) ==>
                        IsFreshOctet(address + i, response.frame.payload[i])))
  {
    hide Decode, Serve, Value32, RequestedLength, Number, Run, Acknowledged, ValueAt, IsFreshOctet, Untouched;
    ReadSeesAcknowledged(policy, m, requests, read);
    RequestedIsNumber(Decode(read).frame.payload);
    var a := Value32(Decode(read).frame.address) + i;
    var writes := Acknowledged(policy, m, requests);
    if a < 0x1000 && Untouched(writes, a) {
      NotCovered(writes, a, m[a]);
    }
  }
}
