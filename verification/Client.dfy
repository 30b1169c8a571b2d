/** The correlating client: bounded read retries, single-attempt writes, metrics (src/client.cpp). */
module Client {
  import opened Words
  import opened Frames
  import opened Codec
  import opened Memory
  import opened Server
  import opened Transport

  /**
   The transport interface as a record of functions on its state T. Any behaviour whatever of connect,
   close, connected and exchange is an instance, with T as large as it takes.
   */
  datatype Interface<!T> = Interface(
    connected: T -> bool,
    connect: T -> (T, bool),
    close: T -> T,
    exchange: (T, Bytes, int) -> (T, Reply))

  /** The loopback transport as an instance. */
  const LOOPBACK: Interface<Link> := Interface(
    (s: Link) => s.connected,
    (s: Link) => (s.(connected := true), true),
    (s: Link) => s.(connected := false),
    (s: Link, request: Bytes, deadline: int) => Exchanged(s, request, deadline))

  datatype ClientError =
    | NoError
    | InvalidArgument
    | ConnectFailed
    | TimeoutError
    | DisconnectedError
    | EncodingFailed
    | MalformedResponse
    | CorrelationMismatch
    | UnexpectedResponse
    | RemoteError

  datatype ResultDetail =
    | BadArguments
    | ConnectRefused
    | CodecFailure(codecError: CodecError)
    | TransportFailure(transportError: TransportError)
    | NotRetried(transportError: TransportError)
    | AttemptsExhausted
    | WrongCorrelation
    | RemoteRejected
    | WrongShape
    | Fine

  datatype Metrics = Metrics(
    operations: nat,
    transportAttempts: nat,
    reconnects: nat,
    retries: nat,
    timeouts: nat,
    protocolErrors: nat)

  datatype ClientState = ClientState(maximumReadAttempts: nat, metrics: Metrics, nextRequestId: U32)

  datatype OperationResult = OperationResult(
    error: ClientError,
    remoteStatus: bv16,
    requestId: bv32,
    attempts: nat,
    data: Bytes,
    detail: ResultDetail)

  function FreshClient(maximumReadAttempts: nat): ClientState {
    ClientState(if maximumReadAttempts < 1 then 1 else maximumReadAttempts, Metrics(0, 0, 0, 0, 0, 0), 1)
  }

  /** Increment of a std::uint32_t that skips zero. */
  function NextRequestId(id: U32): U32 {
    var next := (id + 1) % 0x1_0000_0000;
    if next == 0 then 1 else next
  }

  function Started(c: ClientState): ClientState {
    c.(metrics := c.metrics.(operations := c.metrics.operations + 1), nextRequestId := NextRequestId(c.nextRequestId))
  }

  function LengthPayload(length: nat): Bytes
    requires length <= MAXIMUM_PAYLOAD_SIZE
  {
    [High16(Word16(length)), Low16(Word16(length))]
  }

  function ReadRequest(id: U32, address: U32, length: nat): Frame
    requires length <= MAXIMUM_PAYLOAD_SIZE
  {
    Frame(PROTOCOL_VERSION, READ_REQUEST, 0, Word32(id), Word32(address), OK, LengthPayload(length))
  }

  function WriteRequest(id: U32, address: U32, data: Bytes): Frame {
    Frame(PROTOCOL_VERSION, WRITE_REQUEST, 0, Word32(id), Word32(address), OK, data)
  }

  function Failure(error: ClientError, requestId: bv32, attempts: nat, detail: ResultDetail): OperationResult {
    OperationResult(error, OK, requestId, attempts, [], detail)
  }

  function EnsureConnected<T>(io: Interface<T>, c: ClientState, t: T): (ClientState, T, bool) {
    if io.connected(t) then (c, t, true)
    else
      var (t', ok) := io.connect(t);
      (c.(metrics := c.metrics.(reconnects := c.metrics.reconnects + 1)), t', ok)
  }

  function CountAttempt(c: ClientState): ClientState {
    c.(metrics := c.metrics.(transportAttempts := c.metrics.transportAttempts + 1))
  }

  function CountTimeout(c: ClientState, error: TransportError): ClientState {
    if error == Timeout then c.(metrics := c.metrics.(timeouts := c.metrics.timeouts + 1)) else c
  }

  function CountRetry(c: ClientState): ClientState {
    c.(metrics := c.metrics.(retries := c.metrics.retries + 1))
  }

  function CountProtocolError(c: ClientState): ClientState {
    c.(metrics := c.metrics.(protocolErrors := c.metrics.protocolErrors + 1))
  }

  function ErrorOf(error: TransportError): ClientError {
    if error == Timeout then TimeoutError else DisconnectedError
  }

  function ValidateResponse(c: ClientState, request: Frame, response: Bytes, expectedOpcode: bv8, expectedLength: nat,
                            attempts: nat): (ClientState, OperationResult)
  {
    match Decode(response)
    case Rejected(error, _) =>
      (CountProtocolError(c), Failure(MalformedResponse, request.requestId, attempts, CodecFailure(error)))
    case Decoded(frame, _) =>
      if frame.requestId != request.requestId || frame.address != request.address then
        (CountProtocolError(c),
         OperationResult(CorrelationMismatch, frame.status, request.requestId, attempts, [], WrongCorrelation))
      else if frame.opcode == ERROR_RESPONSE then
        (c, OperationResult(RemoteError, frame.status, request.requestId, attempts, frame.payload, RemoteRejected))
      else if frame.opcode != expectedOpcode || |frame.payload| != expectedLength then
        (CountProtocolError(c),
         OperationResult(UnexpectedResponse, frame.status, request.requestId, attempts, [], WrongShape))
      else (c, OperationResult(NoError, frame.status, request.requestId, attempts, frame.payload, Fine))
  }

  predicate Retryable(error: TransportError) {
    error == Timeout || error == Disconnected || error == NotConnected
  }

  /** One turn of the retry loop; no result means that the loop goes round again. */
  function Attempt<T>(io: Interface<T>, c: ClientState, t: T, request: Frame, encoded: Bytes, expectedLength: nat,
                      deadline: int, attempt: nat): (r: (ClientState, T, Option<OperationResult>))
    ensures r.0.maximumReadAttempts == c.maximumReadAttempts
  {
    var (c1, t1, ok) := EnsureConnected(io, c, t);
    if !ok then (c1, t1, Some(Failure(ConnectFailed, request.requestId, attempt, ConnectRefused)))
    else
      var (t2, reply) := io.exchange(t1, encoded, deadline);
      match reply
      case Delivered(bytes) =>
        var (c2, result) := ValidateResponse(CountAttempt(c1), request, bytes, DATA_RESPONSE, expectedLength, attempt);
        (c2, t2, Some(result))
      case Failed(error) =>
        var c2, t3 := CountTimeout(CountAttempt(c1), error), io.close(t2);
        if attempt < c.maximumReadAttempts && Retryable(error) then (CountRetry(c2), t3, None)
        else (c2, t3, Some(Failure(ErrorOf(error), request.requestId, attempt, TransportFailure(error))))
  }

  /** The retry loop from one attempt on. */
  function Attempts<T>(io: Interface<T>, c: ClientState, t: T, request: Frame, encoded: Bytes, expectedLength: nat,
                       deadline: int, attempt: nat): (ClientState, T, OperationResult)
    decreases c.maximumReadAttempts + 1 - attempt
  {
    if attempt > c.maximumReadAttempts then
      (c, t, Failure(DisconnectedError, request.requestId, c.maximumReadAttempts, AttemptsExhausted))
    else
      var (c', t', result) := Attempt(io, c, t, request, encoded, expectedLength, deadline, attempt);
      match result
      case Some(r) => (c', t', r)
      case None => Attempts(io, c', t', request, encoded, expectedLength, deadline, attempt + 1)
  }

  function ExecuteRead<T>(io: Interface<T>, c: ClientState, t: T, request: Frame, expectedLength: nat, deadline: int)
    : (ClientState, T, OperationResult)
  {
    match Encode(request)
    case NotEncoded(error) => (c, t, Failure(EncodingFailed, request.requestId, 0, CodecFailure(error)))
    case Encoded(bytes) => Attempts(io, c, t, request, bytes, expectedLength, deadline, 1)
  }

  function ExecuteWrite<T>(io: Interface<T>, c: ClientState, t: T, request: Frame, deadline: int)
    : (ClientState, T, OperationResult)
  {
    match Encode(request)
    case NotEncoded(error) => (c, t, Failure(EncodingFailed, request.requestId, 0, CodecFailure(error)))
    case Encoded(encoded) =>
      var (c1, t1, ok) := EnsureConnected(io, c, t);
      if !ok then (c1, t1, Failure(ConnectFailed, request.requestId, 1, ConnectRefused))
      else
        var (t2, reply) := io.exchange(t1, encoded, deadline);
        match reply
        case Failed(error) =>
          (CountTimeout(CountAttempt(c1), error), io.close(t2),
           Failure(ErrorOf(error), request.requestId, 1, NotRetried(error)))
        case Delivered(bytes) =>
          var (c2, result) := ValidateResponse(CountAttempt(c1), request, bytes, WRITE_ACKNOWLEDGEMENT, 0, 1);
          (c2, t2, result)
  }

  function ReadOperation<T>(io: Interface<T>, c: ClientState, t: T, address: U32, length: nat, deadline: int)
    : (ClientState, T, OperationResult)
  {
    if length == 0 || length > MAXIMUM_PAYLOAD_SIZE || deadline <= 0 then
      (Started(c), t, Failure(InvalidArgument, Word32(c.nextRequestId), 0, BadArguments))
    else ExecuteRead(io, Started(c), t, ReadRequest(c.nextRequestId, address, length), length, deadline)
  }

  function WriteOperation<T>(io: Interface<T>, c: ClientState, t: T, address: U32, data: Bytes, deadline: int)
    : (ClientState, T, OperationResult)
  {
    if data == [] || |data| > MAXIMUM_PAYLOAD_SIZE || deadline <= 0 then
      (Started(c), t, Failure(InvalidArgument, Word32(c.nextRequestId), 0, BadArguments))
    else ExecuteWrite(io, Started(c), t, WriteRequest(c.nextRequestId, address, data), deadline)
  }

  class Client {
    const transport: LoopbackTransport
    const maximumReadAttempts: nat
    var metrics: Metrics
    var nextRequestId: U32

    ghost predicate Valid() {
      transport.Valid() && maximumReadAttempts >= 1
    }

    ghost function State(): ClientState
      reads this
    {
      ClientState(maximumReadAttempts, metrics, nextRequestId)
    }

    constructor (transport: LoopbackTransport, maximumReadAttempts: nat)
      requires transport.Valid()
      ensures Valid() && this.transport == transport
      ensures this.maximumReadAttempts == if maximumReadAttempts == 0 then 1 else maximumReadAttempts
      ensures metrics == Metrics(0, 0, 0, 0, 0, 0) && nextRequestId == 1
      ensures State() == FreshClient(maximumReadAttempts)
    {
      this.transport := transport;
      this.maximumReadAttempts := if maximumReadAttempts < 1 then 1 else maximumReadAttempts;
      metrics := Metrics(0, 0, 0, 0, 0, 0);
      nextRequestId := 1;
    }

    method Read(address: U32, length: nat, deadline: int) returns (result: OperationResult)
      requires Valid()
      modifies this, transport, transport.server.memory.bytes
      ensures (State(), transport.State(), result) ==
              ReadOperation(LOOPBACK, old(State()), old(transport.State()), address, length, deadline)
    {
      hide Exchanged, Encode, Decode, Word16, Word32, ExecuteRead;
      metrics := metrics.(operations := metrics.operations + 1);
      var requestId := AllocateRequestId();
      if length == 0 || length > MAXIMUM_PAYLOAD_SIZE || deadline <= 0 {
        return Failure(InvalidArgument, Word32(requestId), 0, BadArguments);
      }
      var request := ReadRequest(requestId, address, length);
      result := DoRead(request, length, deadline);
    }

    method Write(address: U32, data: Bytes, deadline: int) returns (result: OperationResult)
      requires Valid()
      modifies this, transport, transport.server.memory.bytes
      ensures (State(), transport.State(), result) ==
              WriteOperation(LOOPBACK, old(State()), old(transport.State()), address, data, deadline)
    {
      hide Exchanged, Encode, Decode, Word16, Word32, ExecuteWrite;
      metrics := metrics.(operations := metrics.operations + 1);
      var requestId := AllocateRequestId();
      if data == [] || |data| > MAXIMUM_PAYLOAD_SIZE || deadline <= 0 {
        return Failure(InvalidArgument, Word32(requestId), 0, BadArguments);
      }
      var request := WriteRequest(requestId, address, data);
      result := DoWrite(request, deadline);
    }

    method AllocateRequestId() returns (requestId: U32)
      modifies this`nextRequestId
      ensures requestId == old(nextRequestId)
      ensures nextRequestId == NextRequestId(old(nextRequestId))
    {
      requestId := nextRequestId;
      nextRequestId := (nextRequestId + 1) % 0x1_0000_0000;
      if nextRequestId == 0 {
        nextRequestId := 1;
      }
    }

    /** The retry loop. */
    method DoRead(request: Frame, expectedLength: nat, deadline: int) returns (result: OperationResult)
      requires Valid()
      modifies this, transport, transport.server.memory.bytes
      ensures (State(), transport.State(), result) ==
              ExecuteRead(LOOPBACK, old(State()), old(transport.State()), request, expectedLength, deadline)
    {
      hide Encode, Attempt;
      var encoded := EncodeFrame(request);
      if encoded.NotEncoded? {
        return Failure(EncodingFailed, request.requestId, 0, CodecFailure(encoded.error));
      }
      var attempt := 1;
      while attempt <= maximumReadAttempts
        invariant Valid() && 1 <= attempt <= maximumReadAttempts + 1
        invariant Attempts(LOOPBACK, State(), transport.State(),
                           request, encoded.bytes, expectedLength, deadline, attempt) ==
                  Attempts(LOOPBACK, old(State()), old(transport.State()),
                           request, encoded.bytes, expectedLength, deadline, 1)
      {
        var outcome := DoAttempt(request, encoded.bytes, expectedLength, deadline, attempt);
        if outcome.Some? {
          return outcome.value;
        }
        attempt := attempt + 1;
      }
      return Failure(DisconnectedError, request.requestId, maximumReadAttempts, AttemptsExhausted);
    }

    /** The body of the retry loop. */
    method DoAttempt(request: Frame, encoded: Bytes, expectedLength: nat, deadline: int, attempt: nat)
      returns (outcome: Option<OperationResult>)
      requires Valid()
      modifies this, transport, transport.server.memory.bytes
      ensures (State(), transport.State(), outcome) ==
              Attempt(LOOPBACK, old(State()), old(transport.State()),
                      request, encoded, expectedLength, deadline, attempt)
    {
      hide Exchanged, ValidateResponse;
      var ok := DoEnsureConnected();
      if !ok {
        return Some(Failure(ConnectFailed, request.requestId, attempt, ConnectRefused));
      }
      metrics := metrics.(transportAttempts := metrics.transportAttempts + 1);
      var reply := transport.Exchange(encoded, deadline);
      if reply.Delivered? {
        var result := DoValidate(request, reply.bytes, DATA_RESPONSE, expectedLength, attempt);
        return Some(result);
      }
      if reply.error == Timeout {
        metrics := metrics.(timeouts := metrics.timeouts + 1);
      }
      var canRetry := attempt < maximumReadAttempts &&
                      (reply.error == Timeout || reply.error == Disconnected || reply.error == NotConnected);
      transport.Close();
      if canRetry {
        metrics := metrics.(retries := metrics.retries + 1);
        return None;
      }
      var error := if reply.error == Timeout then TimeoutError else DisconnectedError;
      return Some(Failure(error, request.requestId, attempt, TransportFailure(reply.error)));
    }

    method DoWrite(request: Frame, deadline: int) returns (result: OperationResult)
      requires Valid()
      modifies this, transport, transport.server.memory.bytes
      ensures (State(), transport.State(), result) ==
              ExecuteWrite(LOOPBACK, old(State()), old(transport.State()), request, deadline)
    {
      hide Exchanged, Encode, Decode, ValidateResponse;
      var encoded := EncodeFrame(request);
      if encoded.NotEncoded? {
        return Failure(EncodingFailed, request.requestId, 0, CodecFailure(encoded.error));
      }
      var ok := DoEnsureConnected();
      if !ok {
        return Failure(ConnectFailed, request.requestId, 1, ConnectRefused);
      }
      metrics := metrics.(transportAttempts := metrics.transportAttempts + 1);
      var reply := transport.Exchange(encoded.bytes, deadline);
      if reply.Failed? {
        if reply.error == Timeout {
          metrics := metrics.(timeouts := metrics.timeouts + 1);
        }
        transport.Close();
        var error := if reply.error == Timeout then TimeoutError else DisconnectedError;
        return Failure(error, request.requestId, 1, NotRetried(reply.error));
      }
      result := DoValidate(request, reply.bytes, WRITE_ACKNOWLEDGEMENT, 0, 1);
    }

    method DoValidate(request: Frame, response: Bytes, expectedOpcode: bv8, expectedLength: nat, attempts: nat)
      returns (result: OperationResult)
      modifies this
      ensures (State(), result) ==
              ValidateResponse(old(State()), request, response, expectedOpcode, expectedLength, attempts)
    {
      hide Decode;
      var decoded := Decode(response);
      if decoded.Rejected? {
        metrics := metrics.(protocolErrors := metrics.protocolErrors + 1);
        return Failure(MalformedResponse, request.requestId, attempts, CodecFailure(decoded.error));
      }
      var frame := decoded.frame;
      if frame.requestId != request.requestId || frame.address != request.address {
        metrics := metrics.(protocolErrors := metrics.protocolErrors + 1);
        return OperationResult(CorrelationMismatch, frame.status, request.requestId, attempts, [], WrongCorrelation);
      }
      if frame.opcode == ERROR_RESPONSE {
        return OperationResult(RemoteError, frame.status, request.requestId, attempts, frame.payload, RemoteRejected);
      }
      if frame.opcode != expectedOpcode || |frame.payload| != expectedLength {
        metrics := metrics.(protocolErrors := metrics.protocolErrors + 1);
        return OperationResult(UnexpectedResponse, frame.status, request.requestId, attempts, [], WrongShape);
      }
      return OperationResult(NoError, frame.status, request.requestId, attempts, frame.payload, Fine);
    }

    method DoEnsureConnected() returns (ok: bool)
      requires Valid()
      modifies this, transport
      ensures (State(), transport.State(), ok) == EnsureConnected(LOOPBACK, old(State()), old(transport.State()))
    {
      if transport.connected {
        return true;
      }
      metrics := metrics.(reconnects := metrics.reconnects + 1);
      ok := transport.Connect();
    }
  }
}
