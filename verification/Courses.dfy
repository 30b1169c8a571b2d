/**
 The exact course of every operation over any transport: what the replies of the transport, one by one, make
 of the result, the counters and the transport itself. From it follow what a success means and how many
 attempts a new client makes.
 */
module Courses {
  import opened Words
  import opened Frames
  import opened Crc
  import opened Codec
  import opened Rejections
  import opened Transport
  import opened Client
  import opened AnyTransport
  import Server

  // ---------- The verdict on a reply ----------

  /** What the client reports on delivered octets: which of five ways, by the octets and the request alone. */
  predicate VerdictIs(request: Frame, response: Bytes, opcode: bv8, length: nat, attempts: nat, r: OperationResult) {
    && r.requestId == request.requestId && r.attempts == attempts
    && match Decode(response)
       case Rejected(e, _) =>
         r.error == MalformedResponse && r.remoteStatus == 0 && r.data == [] && r.detail == CodecFailure(e)
       case Decoded(frame, _) =>
         var correlated := frame.requestId == request.requestId && frame.address == request.address;
         var expected := frame.opcode == opcode && |frame.payload| == length;
         && (r.error == CorrelationMismatch <==> !correlated)
         && (r.error == RemoteError <==> correlated && frame.opcode == 0xFF)
         && (r.error == UnexpectedResponse <==> correlated && frame.opcode != 0xFF && !expected)
         && (r.error == NoError <==> correlated && expected)
         && r.remoteStatus == frame.status
         && r.data == (if r.error == RemoteError || r.error == NoError then frame.payload else [])
         && r.detail == (if r.error == CorrelationMismatch then WrongCorrelation
                         else if r.error == RemoteError then RemoteRejected
                         else if r.error == UnexpectedResponse then WrongShape
                         else Fine)
  }

  /** An error response is a remote error only for the request's own ID and address. */
  lemma Verdict(c: ClientState, request: Frame, response: Bytes, opcode: bv8, length: nat, attempts: nat)
    requires opcode != 0xFF
    ensures var (c', r) := ValidateResponse(c, request, response, opcode, length, attempts);
            && VerdictIs(request, response, opcode, length, attempts, r)
            && c' == c.(metrics := c.metrics.(protocolErrors :=
                                                c.metrics.protocolErrors + Bit(IsProtocolError(r.error))))
  {
    hide Decode;
  }

  // ---------- Courses ----------

  /** The replies to a request, how often the transport had to be connected, and how that ended. */
  datatype Course<+T> = Course(replies: seq<Reply>, connects: nat, refused: bool, last: T)

  /**
   A request sent up to a number of times. Each time the transport is connected first where it is not, which
   it may refuse for good; it is closed after every failure, and the first delivery is the end.
   */
  function CourseOf<T>(io: Interface<T>, t: T, encoded: Bytes, deadline: int, times: nat): Course<T> {
    if times == 0 then Course([], 0, false, t)
    else
      var connects := Bit(!io.connected(t));
      var (t1, ok) := if io.connected(t) then (t, true) else io.connect(t);
      if !ok then Course([], connects, true, t1)
      else
        match io.exchange(t1, encoded, deadline)
        case (t2, Delivered(bytes)) => Course([Delivered(bytes)], connects, false, t2)
        case (t2, Failed(error)) =>
          var rest := CourseOf(io, io.close(t2), encoded, deadline, times - 1);
          Course([Failed(error)] + rest.replies, connects + rest.connects, rest.refused, rest.last)
  }

  function TimeoutsAmong(replies: seq<Reply>): nat {
    if replies == [] then 0 else Bit(replies[0] == Failed(Timeout)) + TimeoutsAmong(replies[1..])
  }

  function FailuresAmong(replies: seq<Reply>): nat {
    if replies == [] then 0 else Bit(replies[0].Failed?) + FailuresAmong(replies[1..])
  }

  /** How a client that made these attempts counts them. */
  function Counted<T>(m: Metrics, course: Course<T>, times: nat, e: ClientError): Metrics
    requires times >= 1
  {
    m.(transportAttempts := m.transportAttempts + |course.replies|,
       reconnects := m.reconnects + course.connects,
       retries := m.retries + Min(FailuresAmong(course.replies), times - 1),
       timeouts := m.timeouts + TimeoutsAmong(course.replies),
       protocolErrors := m.protocolErrors + Bit(IsProtocolError(e)))
  }

  /** What is reported after a course, whose attempts are numbered on from those made before. */
  predicate EndsAs<T>(course: Course<T>, request: Frame, opcode: bv8, length: nat, times: nat, before: nat,
                      r: OperationResult)
  {
    var n := |course.replies|;
    if course.refused then r == OperationResult(ConnectFailed, 0, request.requestId, before + n + 1, [], ConnectRefused)
    else
      && 1 <= n <= times
      && match course.replies[n - 1]
         case Delivered(bytes) => VerdictIs(request, bytes, opcode, length, before + n, r)
         case Failed(error) =>
           var reported := if error == Timeout then TimeoutError else DisconnectedError;
           var detail := if opcode == 0x81 then TransportFailure(error) else NotRetried(error);
           n == times && r == OperationResult(reported, 0, request.requestId, before + n, [], detail)
  }

  lemma LastOf<T>(x: T, rest: seq<T>)
    ensures rest != [] ==> ([x] + rest)[|rest|] == rest[|rest| - 1]
    ensures ([x] + rest)[1..] == rest
  {
  }

  /** A failure, and then the rest. */
  lemma EndsLater<T>(course: Course<T>, rest: Course<T>, error: TransportError, request: Frame, length: nat, times: nat,
                     before: nat, r: OperationResult)
    requires course.replies == [Failed(error)] + rest.replies && course.refused == rest.refused
    requires EndsAs(rest, request, 0x81, length, times, before + 1, r)
    ensures EndsAs(course, request, 0x81, length, times + 1, before, r)
  {
    hide VerdictIs;
    LastOf(Failed(error), rest.replies);
  }

  lemma CountedLater<T>(m: Metrics, course: Course<T>, rest: Course<T>, anew: bool, error: TransportError, times: nat,
                        e: ClientError)
    requires course.replies == [Failed(error)] + rest.replies && course.connects == Bit(anew) + rest.connects
    requires times >= 1
    ensures var first := m.(transportAttempts := m.transportAttempts + 1, reconnects := m.reconnects + Bit(anew),
                            retries := m.retries + 1, timeouts := m.timeouts + Bit(error == Timeout));
            Counted(m, course, times + 1, e) == Counted(first, rest, times, e)
  {
    LastOf(Failed(error), rest.replies);
  }

  /** Counting a course of at most one reply. */
  lemma CountedOnce<T>(m: Metrics, course: Course<T>, times: nat, e: ClientError)
    requires times >= 1 && |course.replies| <= 1
    ensures var n := |course.replies|;
            var failed := n == 1 && course.replies[0].Failed?;
            Counted(m, course, times, e) ==
            m.(transportAttempts := m.transportAttempts + n,
               reconnects := m.reconnects + course.connects,
               retries := m.retries + Bit(failed && times > 1),
               timeouts := m.timeouts + Bit(n == 1 && course.replies[0] == Failed(Timeout)),
               protocolErrors := m.protocolErrors + Bit(IsProtocolError(e)))
  {
    if |course.replies| == 1 {
      assert course.replies[1..] == [];
      assert FailuresAmong(course.replies[1..]) == 0 && TimeoutsAmong(course.replies[1..]) == 0;
      assert FailuresAmong(course.replies) == Bit(course.replies[0].Failed?);
      assert TimeoutsAmong(course.replies) == Bit(course.replies[0] == Failed(Timeout));
    }
  }

  lemma ConnectedFirst<T>(io: Interface<T>, c: ClientState, t: T)
    ensures EnsureConnected(io, c, t) ==
            (c.(metrics := c.metrics.(reconnects := c.metrics.reconnects + Bit(!io.connected(t)))),
             if io.connected(t) then t else io.connect(t).0,
             io.connected(t) || io.connect(t).1)
  {
  }

  /** One turn of the retry loop that ends it. */
  lemma LastTurn<T>(io: Interface<T>, c: ClientState, t: T, request: Frame, encoded: Bytes, length: nat, deadline: int,
                    attempt: nat)
    requires 1 <= attempt <= c.maximumReadAttempts
    ensures var times := c.maximumReadAttempts + 1 - attempt;
            var course := CourseOf(io, t, encoded, deadline, times);
            var (c', t', outcome) := Attempt(io, c, t, request, encoded, length, deadline, attempt);
            outcome.Some? ==>
              && t' == course.last
              && EndsAs(course, request, 0x81, length, times, attempt - 1, outcome.value)
              && c' == c.(metrics := Counted(c.metrics, course, times, outcome.value.error))
  {
    hide ValidateResponse, VerdictIs, Counted, EnsureConnected;
    var times := c.maximumReadAttempts + 1 - attempt;
    var course := CourseOf(io, t, encoded, deadline, times);
    ConnectedFirst(io, c, t);
    var (c1, t1, ok) := EnsureConnected(io, c, t);
    if !ok {
      CountedOnce(c.metrics, course, times, ConnectFailed);
    } else {
      var (t2, reply) := io.exchange(t1, encoded, deadline);
      match reply {
        case Delivered(bytes) =>
          Verdict(CountAttempt(c1), request, bytes, DATA_RESPONSE, length, attempt);
          var r := ValidateResponse(CountAttempt(c1), request, bytes, DATA_RESPONSE, length, attempt).1;
          CountedOnce(c.metrics, course, times, r.error);
        case Failed(error) =>
          if times == 1 {
            assert CourseOf(io, io.close(t2), encoded, deadline, 0).replies == [];
            assert course.replies == [Failed(error)] + [] == [Failed(error)];
            CountedOnce(c.metrics, course, times, ErrorOf(error));
          }
      }
    }
  }

  /** One turn that goes round again. */
  lemma NextTurn<T>(io: Interface<T>, c: ClientState, t: T, request: Frame, encoded: Bytes, length: nat, deadline: int,
                    attempt: nat)
    requires 1 <= attempt <= c.maximumReadAttempts
    ensures var times := c.maximumReadAttempts + 1 - attempt;
            var course := CourseOf(io, t, encoded, deadline, times);
            var (c', t', outcome) := Attempt(io, c, t, request, encoded, length, deadline, attempt);
            outcome.None? ==>
              && times > 1
              && var rest := CourseOf(io, t', encoded, deadline, times - 1);
                 && course.replies != [] && course.replies[0].Failed?
                 && var error := course.replies[0].error;
                    && course == Course([Failed(error)] + rest.replies, Bit(!io.connected(t)) + rest.connects,
                                        rest.refused, rest.last)
                    && c' == c.(metrics := c.metrics.(transportAttempts := c.metrics.transportAttempts + 1,
                                                      reconnects := c.metrics.reconnects + Bit(!io.connected(t)),
                                                      retries := c.metrics.retries + 1,
                                                      timeouts := c.metrics.timeouts + Bit(error == Timeout)))
  {
    hide ValidateResponse, EnsureConnected;
    ConnectedFirst(io, c, t);
  }

  lemma {:induction false} AttemptsFollow<T>(io: Interface<T>, c: ClientState, t: T, request: Frame, encoded: Bytes,
                                             length: nat, deadline: int, attempt: nat)
    requires 1 <= attempt <= c.maximumReadAttempts
    ensures var times := c.maximumReadAttempts + 1 - attempt;
            var course := CourseOf(io, t, encoded, deadline, times);
            var (c', t', r) := Attempts(io, c, t, request, encoded, length, deadline, attempt);
            && t' == course.last
            && EndsAs(course, request, 0x81, length, times, attempt - 1, r)
            && c' == c.(metrics := Counted(c.metrics, course, times, r.error))
    decreases c.maximumReadAttempts - attempt
  {
    hide Attempt, CourseOf, EndsAs, Counted;
    var times := c.maximumReadAttempts + 1 - attempt;
    LastTurn(io, c, t, request, encoded, length, deadline, attempt);
    NextTurn(io, c, t, request, encoded, length, deadline, attempt);
    var (c', t', outcome) := Attempt(io, c, t, request, encoded, length, deadline, attempt);
    if outcome.None? {
      AttemptsFollow(io, c', t', request, encoded, length, deadline, attempt + 1);
      var course, rest := CourseOf(io, t, encoded, deadline, times), CourseOf(io, t', encoded, deadline, times - 1);
      var (_, _, r) := Attempts(io, c', t', request, encoded, length, deadline, attempt + 1);
      var error := course.replies[0].error;
      EndsLater(course, rest, error, request, length, times - 1, attempt - 1, r);
      CountedLater(c.metrics, course, rest, !io.connected(t), error, times - 1, r.error);
    }
  }

  /**
   A valid read, whatever the transport does: the replies decide the result, every counter and the transport.
   */
  lemma ReadCourse<T>(io: Interface<T>, c: ClientState, t: T, address: U32, length: nat, deadline: int)
    requires c.maximumReadAttempts >= 1 && 0 < length <= 256 && deadline > 0
    ensures Encodable(ReadRequest(c.nextRequestId, address, length))
    ensures var request := ReadRequest(c.nextRequestId, address, length);
            var course := CourseOf(io, t, Wire(request), deadline, c.maximumReadAttempts);
            var (c', t', r) := ReadOperation(io, c, t, address, length, deadline);
            && t' == course.last
            && EndsAs(course, request, 0x81, length, c.maximumReadAttempts, 0, r)
            && c' == Started(c).(metrics := Counted(Started(c).metrics, course, c.maximumReadAttempts, r.error))
  {
    hide Encode, Attempts, CourseOf, EndsAs, Counted, Word32, Word16, NextRequestId;
    var request := ReadRequest(c.nextRequestId, address, length);
    ReadRequestEncodable(c.nextRequestId, address, length);
    AttemptsFollow(io, Started(c), t, request, Wire(request), length, deadline, 1);
  }

  /** A valid write is a course of one attempt. */
  lemma WriteCourse<T>(io: Interface<T>, c: ClientState, t: T, address: U32, data: Bytes, deadline: int)
    requires 0 < |data| <= 256 && deadline > 0
    ensures Encodable(WriteRequest(c.nextRequestId, address, data))
    ensures var request := WriteRequest(c.nextRequestId, address, data);
            var course := CourseOf(io, t, Wire(request), deadline, 1);
            var (c', t', r) := WriteOperation(io, c, t, address, data, deadline);
            && t' == course.last
            && EndsAs(course, request, 0x82, 0, 1, 0, r)
            && c' == Started(c).(metrics := Counted(Started(c).metrics, course, 1, r.error))
  {
    hide Encode, ValidateResponse, VerdictIs, Counted, EnsureConnected, Word32, NextRequestId;
    var request := WriteRequest(c.nextRequestId, address, data);
    WriteRequestEncodable(c.nextRequestId, address, data);
    var course := CourseOf(io, t, Wire(request), deadline, 1);
    var r := WriteOperation(io, c, t, address, data, deadline).2;
    ConnectedFirst(io, Started(c), t);
    var (c1, t1, ok) := EnsureConnected(io, Started(c), t);
    if ok {
      var (t2, reply) := io.exchange(t1, Wire(request), deadline);
      match reply {
        case Delivered(bytes) =>
          Verdict(CountAttempt(c1), request, bytes, WRITE_ACKNOWLEDGEMENT, 0, 1);
        case Failed(error) =>
          assert CourseOf(io, io.close(t2), Wire(request), deadline, 0).replies == [];
          assert course.replies == [Failed(error)] + [] == [Failed(error)];
      }
    }
    CountedOnce(Started(c).metrics, course, 1, r.error);
  }

  lemma {:induction false} CourseLength<T>(io: Interface<T>, t: T, encoded: Bytes, deadline: int, times: nat)
    ensures var course := CourseOf(io, t, encoded, deadline, times);
            && |course.replies| <= times
            && (!course.refused && (forall reply :: reply in course.replies ==> reply.Failed?) ==>
                  |course.replies| == times)
  {
    if times > 0 && (io.connected(t) || io.connect(t).1) {
      var t1 := if io.connected(t) then t else io.connect(t).0;
      var (t2, reply) := io.exchange(t1, encoded, deadline);
      if reply.Failed? {
        CourseLength(io, io.close(t2), encoded, deadline, times - 1);
      }
    }
  }

  /**
   The bound that a new client works with is the one it was made with, or 1 where that is 0: its first read
   makes no more attempts, makes all of them when the transport connects and every reply is lost, and every
   counter starts from zero.
   */
  lemma NewClientRead<T>(io: Interface<T>, option: nat, t: T, address: U32, length: nat, deadline: int)
    requires 0 < length <= 256 && deadline > 0
    ensures Encodable(ReadRequest(1, address, length))
    ensures var bound := if option == 0 then 1 else option;
            var request := ReadRequest(1, address, length);
            var course := CourseOf(io, t, Wire(request), deadline, bound);
            var (c', t', r) := ReadOperation(io, FreshClient(option), t, address, length, deadline);
            && t' == course.last
            && EndsAs(course, request, 0x81, length, bound, 0, r)
            && c' == ClientState(bound, Counted(Metrics(1, 0, 0, 0, 0, 0), course, bound, r.error), 2)
            && |course.replies| <= bound
            && (!course.refused && (forall reply :: reply in course.replies ==> reply.Failed?) ==>
                  |course.replies| == bound)
  {
    hide ReadOperation, CourseOf, EndsAs, Counted, ReadRequest, Encode;
    var bound := if option == 0 then 1 else option;
    ReadCourse(io, FreshClient(option), t, address, length, deadline);
    CourseLength(io, t, Wire(ReadRequest(1, address, length)), deadline, bound);
  }

  // ---------- What a success means ----------

  function ExpectedResponse(request: Frame, opcode: bv8, data: Bytes): Frame {
    Frame(PROTOCOL_VERSION, opcode, RESPONSE_FLAG, request.requestId, request.address, OK, data)
  }

  lemma DecodedResponseFields(bytes: Bytes, opcode: bv8)
    requires Decode(bytes).Decoded? && Decode(bytes).frame.opcode == opcode
    requires opcode == DATA_RESPONSE || opcode == WRITE_ACKNOWLEDGEMENT
    ensures var frame := Decode(bytes).frame;
            frame.version == PROTOCOL_VERSION && frame.flags == RESPONSE_FLAG && frame.status == OK
  {
    Server.DecodedIsValid(bytes);
    hide Decode;
    OnlyResponseFlag(Decode(bytes).frame.flags);
  }

  lemma VerdictSuccess(request: Frame, response: Bytes, opcode: bv8, length: nat, attempts: nat, r: OperationResult,
                       data: Bytes)
    requires opcode == DATA_RESPONSE || opcode == WRITE_ACKNOWLEDGEMENT
    requires VerdictIs(request, response, opcode, length, attempts, r)
    ensures r.error == NoError && r.data == data <==>
            |data| == length && Encode(ExpectedResponse(request, opcode, data)) == Encoded(response)
  {
    hide Decode, Encode;
    Canonical(ExpectedResponse(request, opcode, data), response, |response|);
    if Decode(response).Decoded? {
      WireOfDecoded(response);
      if Decode(response).frame.opcode == opcode {
        DecodedResponseFields(response, opcode);
      }
    }
  }

  /**
   A reply is reported as a success with these data exactly when it is, byte for byte, the one encoding
   of the response that matches the request and carries them.
   */
  lemma SuccessIsExactResponse(c: ClientState, request: Frame, response: Bytes, opcode: bv8, length: nat, attempts: nat,
                               data: Bytes)
    requires opcode == DATA_RESPONSE || opcode == WRITE_ACKNOWLEDGEMENT
    ensures var r := ValidateResponse(c, request, response, opcode, length, attempts).1;
            r.error == NoError && r.data == data <==>
              |data| == length && Encode(ExpectedResponse(request, opcode, data)) == Encoded(response)
  {
    hide Encode, ValidateResponse, VerdictIs;
    Verdict(c, request, response, opcode, length, attempts);
    VerdictSuccess(request, response, opcode, length, attempts,
                   ValidateResponse(c, request, response, opcode, length, attempts).1, data);
  }

  /** The octets that were delivered, if any were. */
  function FirstDelivered<T>(course: Course<T>): Option<Bytes> {
    var n := |course.replies|;
    if !course.refused && n > 0 && course.replies[n - 1].Delivered? then Some(course.replies[n - 1].bytes) else None
  }

  /** The transport has, in some state, answered these octets with those. */
  ghost predicate Delivers<T(!new)>(io: Interface<T>, encoded: Bytes, deadline: int, reply: Bytes) {
    exists t :: io.exchange(t, encoded, deadline).1 == Delivered(reply)
  }

  lemma {:induction false} DeliveredByExchange<T(!new)>(io: Interface<T>, t: T, encoded: Bytes, deadline: int,
                                                        times: nat)
    ensures var first := FirstDelivered(CourseOf(io, t, encoded, deadline, times));
            first.Some? ==> Delivers(io, encoded, deadline, first.value)
  {
    if times > 0 && (io.connected(t) || io.connect(t).1) {
      var t1 := if io.connected(t) then t else io.connect(t).0;
      var (t2, reply) := io.exchange(t1, encoded, deadline);
      if reply.Delivered? {
        assert io.exchange(t1, encoded, deadline).1 == Delivered(reply.bytes);
      } else {
        LastOf(reply, CourseOf(io, io.close(t2), encoded, deadline, times - 1).replies);
        DeliveredByExchange(io, io.close(t2), encoded, deadline, times - 1);
      }
    }
  }

  /** A course ends in success exactly when the matching response has been delivered. */
  lemma EndsInSuccess<T>(course: Course<T>, request: Frame, opcode: bv8, length: nat, times: nat, r: OperationResult,
                         data: Bytes)
    requires opcode == DATA_RESPONSE || opcode == WRITE_ACKNOWLEDGEMENT
    requires EndsAs(course, request, opcode, length, times, 0, r)
    ensures var first := FirstDelivered(course);
            r.error == NoError && r.data == data <==>
              && first.Some? && |data| == length
              && Encode(ExpectedResponse(request, opcode, data)) == Encoded(first.value)
  {
    hide VerdictIs, Encode, ExpectedResponse;
    var n := |course.replies|;
    if FirstDelivered(course).Some? {
      VerdictSuccess(request, course.replies[n - 1].bytes, opcode, length, n, r, data);
    }
  }

  lemma NoAttempts<T>(io: Interface<T>, c: ClientState, t: T, address: U32, length: nat, deadline: int)
    requires c.maximumReadAttempts == 0
    ensures ReadOperation(io, c, t, address, length, deadline).2.error != NoError
  {
    hide Encode, Word32, Word16, NextRequestId;
  }

  lemma NothingDelivered<T>(io: Interface<T>, t: T, encoded: Bytes, deadline: int)
    ensures FirstDelivered(CourseOf(io, t, encoded, deadline, 0)) == None
  {
  }

  /**
   Over any transport, a read returns these data as a success exactly when its arguments are valid and
   the first octets that the transport delivers for the encoded request are the encoding of the data
   response that matches the request and carries as many octets as were asked for.
   */
  lemma ReadSuccess<T(!new)>(io: Interface<T>, c: ClientState, t: T, address: U32, length: nat, deadline: int,
                             data: Bytes)
    ensures length <= MAXIMUM_PAYLOAD_SIZE ==> Encodable(ReadRequest(c.nextRequestId, address, length))
    ensures var r := ReadOperation(io, c, t, address, length, deadline).2;
            r.error == NoError && r.data == data <==>
              && 0 < length <= MAXIMUM_PAYLOAD_SIZE && deadline > 0 && |data| == length
              && var request := ReadRequest(c.nextRequestId, address, length);
                 var first := FirstDelivered(CourseOf(io, t, Wire(request), deadline, c.maximumReadAttempts));
                 && first.Some? && Delivers(io, Wire(request), deadline, first.value)
                 && Encode(ExpectedResponse(request, DATA_RESPONSE, data)) == Encoded(first.value)
  {
    hide Encode, ReadOperation, CourseOf, EndsAs, FirstDelivered, Delivers, ExpectedResponse, Word32, Word16;
    var max := c.maximumReadAttempts;
    if max == 0 {
      NoAttempts(io, c, t, address, length, deadline);
    }
    if length <= MAXIMUM_PAYLOAD_SIZE {
      var request := ReadRequest(c.nextRequestId, address, length);
      ReadRequestEncodable(c.nextRequestId, address, length);
      if max == 0 {
        NothingDelivered(io, t, Wire(request), deadline);
      } else if 0 < length && deadline > 0 {
        ReadCourse(io, c, t, address, length, deadline);
        DeliveredByExchange(io, t, Wire(request), deadline, max);
        EndsInSuccess(CourseOf(io, t, Wire(request), deadline, max), request, DATA_RESPONSE, length, max,
                      ReadOperation(io, c, t, address, length, deadline).2, data);
      }
    }
    if max > 0 && !(0 < length <= MAXIMUM_PAYLOAD_SIZE && deadline > 0) {
      ReadBooks(io, c, t, address, length, deadline);
    }
  }

  /** The same for a write, which sends its request once and expects an empty acknowledgement. */
  lemma WriteSuccess<T(!new)>(io: Interface<T>, c: ClientState, t: T, address: U32, data: Bytes, deadline: int)
    ensures 0 < |data| <= MAXIMUM_PAYLOAD_SIZE ==> Encodable(WriteRequest(c.nextRequestId, address, data))
    ensures var r := WriteOperation(io, c, t, address, data, deadline).2;
            r.error == NoError <==>
              && 0 < |data| <= MAXIMUM_PAYLOAD_SIZE && deadline > 0
              && var request := WriteRequest(c.nextRequestId, address, data);
                 var first := FirstDelivered(CourseOf(io, t, Wire(request), deadline, 1));
                 && first.Some? && Delivers(io, Wire(request), deadline, first.value)
                 && Encode(ExpectedResponse(request, WRITE_ACKNOWLEDGEMENT, [])) == Encoded(first.value)
  {
    hide Encode, WriteOperation, CourseOf, EndsAs, FirstDelivered, Delivers, ExpectedResponse, Word32;
    var r := WriteOperation(io, c, t, address, data, deadline).2;
    if 0 < |data| <= MAXIMUM_PAYLOAD_SIZE {
      var request := WriteRequest(c.nextRequestId, address, data);
      WriteRequestEncodable(c.nextRequestId, address, data);
      if deadline > 0 {
        WriteCourse(io, c, t, address, data, deadline);
        DeliveredByExchange(io, t, Wire(request), deadline, 1);
        var course := CourseOf(io, t, Wire(request), deadline, 1);
        EndsInSuccess(course, request, WRITE_ACKNOWLEDGEMENT, 0, 1, r, []);
        EndsInSuccess(course, request, WRITE_ACKNOWLEDGEMENT, 0, 1, r, r.data);
      }
    }
    if !(0 < |data| <= MAXIMUM_PAYLOAD_SIZE && deadline > 0) {
      WriteBooks(io, c, t, address, data, deadline);
    }
  }

  // ---------- Refused arguments ----------

  datatype Call = ConnectCall | CloseCall | ExchangeCall(request: Bytes, deadline: int)

  datatype Logged<+T> = Logged(state: T, calls: seq<Call>)

  /** The same transport, with a log of the calls that may change it. */
  function Logging<T>(io: Interface<T>): Interface<Logged<T>> {
    Interface(
      (l: Logged<T>) => io.connected(l.state),
      (l: Logged<T>) =>
        var (t, ok) := io.connect(l.state);
        (Logged(t, l.calls + [ConnectCall]), ok),
      (l: Logged<T>) => Logged(io.close(l.state), l.calls + [CloseCall]),
      (l: Logged<T>, request: Bytes, deadline: int) =>
        var (t, reply) := io.exchange(l.state, request, deadline);
        (Logged(t, l.calls + [ExchangeCall(request, deadline)]), reply))
  }

  /** An operation with bad arguments calls nothing on the transport. */
  lemma RefusedCallsNothing<T>(io: Interface<T>, c: ClientState, t: T, address: U32, length: nat, data: Bytes,
                               deadline: int)
    requires c.maximumReadAttempts >= 1
    ensures length == 0 || length > 256 || deadline <= 0 ==>
              ReadOperation(Logging(io), c, Logged(t, []), address, length, deadline).1 == Logged(t, [])
    ensures data == [] || |data| > 256 || deadline <= 0 ==>
              WriteOperation(Logging(io), c, Logged(t, []), address, data, deadline).1 == Logged(t, [])
  {
    hide ReadOperation, WriteOperation, Logging, NextRequestId, Word32;
    ReadBooks(Logging(io), c, Logged(t, []), address, length, deadline);
    WriteBooks(Logging(io), c, Logged(t, []), address, data, deadline);
  }

  // ---------- Requests on the wire ----------

  /** The octets of a read request, as numbers: its ID and address, and the length as two octets of payload. */
  lemma ReadRequestOctets(id: U32, address: U32, length: nat)
    requires length <= 256
    ensures Encodable(ReadRequest(id, address, length))
    ensures var bytes := Wire(ReadRequest(id, address, length));
            && |bytes| == 24
            && bytes[..6] == [0x49, 0x4D, 0x01, 0x01, 0x00, 0x00]
            && Number(bytes[6..10]) == id && Number(bytes[10..14]) == address
            && Number(bytes[14..16]) == 2 && Number(bytes[16..18]) == 0 && Number(bytes[18..20]) == length
  {
    hide Encode, Number, Value32, Word32, Value16, Word16, Crc32;
    ReadRequestEncodable(id, address, length);
    var request := ReadRequest(id, address, length);
    WireSpells(request);
    ValueOfWord32(id);
    ValueOfWord32(address);
    ZeroValue16();
    LengthOctets(length);
  }

  lemma LengthOctets(length: nat)
    requires length <= 256
    ensures Number(LengthPayload(length)) == length
  {
    hide Number, Value16, Word16, High16, Low16, Join16;
    NumberOfTwo(High16(Word16(length)), Low16(Word16(length)));
    JoinSplit16(Word16(length));
    ValueOfWord16(length);
  }

  /** The octets of a write request, likewise, with the data as its payload. */
  lemma WriteRequestOctets(id: U32, address: U32, data: Bytes)
    requires 0 < |data| <= 256
    ensures Encodable(WriteRequest(id, address, data))
    ensures var bytes := Wire(WriteRequest(id, address, data));
            && |bytes| == 22 + |data|
            && bytes[..6] == [0x49, 0x4D, 0x01, 0x02, 0x00, 0x00]
            && Number(bytes[6..10]) == id && Number(bytes[10..14]) == address
            && Number(bytes[14..16]) == |data| && Number(bytes[16..18]) == 0 && bytes[18..18 + |data|] == data
  {
    hide Encode, Number, Value32, Word32, Value16, Word16, Crc32;
    WriteRequestEncodable(id, address, data);
    WireSpells(WriteRequest(id, address, data));
    ValueOfWord32(id);
    ValueOfWord32(address);
    ZeroValue16();
  }
}
