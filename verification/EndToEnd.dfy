/**
 Client, loopback transport and server together. The exact course of every read and write under every
 fault script is worked out first; from it follows that the whole stack is an array of octets with exact
 reads and writes that are applied at most once.
 */
module EndToEnd {
  import opened Words
  import opened Frames
  import opened Codec
  import opened Memory
  import opened Server
  import opened Transport
  import opened Client
  import opened AnyTransport

  // ---------- One served exchange ----------

  /** What the client reports for an answer that reached it through a fault. */
  function Reported(answer: Answer, fault: Option<Fault>, requestId: bv32, attempts: nat): OperationResult {
    if fault == Some(TruncateResponse) then Failure(MalformedResponse, requestId, attempts, CodecFailure(Truncated))
    else if fault == Some(CorruptResponse) then
      Failure(MalformedResponse, requestId, attempts, CodecFailure(ChecksumMismatch))
    else if fault == Some(WrongRequestId) then
      OperationResult(CorrelationMismatch, answer.status, requestId, attempts, [], WrongCorrelation)
    else if answer.opcode == ERROR_RESPONSE then
      OperationResult(RemoteError, answer.status, requestId, attempts, answer.payload, RemoteRejected)
    else OperationResult(NoError, OK, requestId, attempts, answer.payload, Fine)
  }

  /** The opcode and payload length the client expects of a good answer. */
  predicate Expects(request: Frame, opcode: bv8, length: nat) {
    || (request.opcode == READ_REQUEST && opcode == DATA_RESPONSE && |request.payload| == 2 &&
        length == RequestedLength(request.payload))
    || (request.opcode == WRITE_REQUEST && opcode == WRITE_ACKNOWLEDGEMENT && length == 0)
  }

  lemma GoodAnswer(policy: Policy, m: Contents, request: Frame, opcode: bv8, length: nat)
    requires HasValidSemantics(request) && Expects(request, opcode, length)
    ensures var answer := AnswerTo(policy, m, request);
            answer.opcode != ERROR_RESPONSE ==>
              answer.opcode == opcode && |answer.payload| == length && answer.status == OK
  {
    hide Value32, RequestedLength, CharOctet;
  }

  lemma ServedReport(c: ClientState, policy: Policy, m: Contents, request: Frame, fault: Option<Fault>, opcode: bv8,
                     length: nat, attempts: nat)
    requires Encodable(request) && HasValidSemantics(request) && Expects(request, opcode, length)
    ensures var response := Distort(fault, Serve(policy, m, Wire(request)).1.response);
            var r := Reported(AnswerTo(policy, m, request), fault, request.requestId, attempts);
            ValidateResponse(c, request, response, opcode, length, attempts) ==
            (if IsProtocolError(r.error) then CountProtocolError(c) else c, r)
  {
    hide Decode, Encode, HasValidSemantics, AnswerTo, Distort, Serve, Expects;
    DecodeWire(request);
    ResponseIsWire(policy, m, Wire(request));
    var answer := AnswerTo(policy, m, request);
    AnswerFits(policy, m, request);
    GoodAnswer(policy, m, request, opcode, length);
    DistortedResponse(ResponseFrame(request, answer), fault);
  }

  // ---------- The exact course of a read ----------

  predicate Lost(fault: Fault) {
    fault == TimeoutFault || fault == DisconnectFault
  }

  /** How many exchanges the fault script loses before the first that reaches the server. */
  function LeadingLost(faults: seq<Fault>): nat {
    if faults == [] || !Lost(faults[0]) then 0 else 1 + LeadingLost(faults[1..])
  }

  function TimeoutsIn(faults: seq<Fault>): nat {
    if faults == [] then 0 else Bit(faults[0] == TimeoutFault) + TimeoutsIn(faults[1..])
  }

  lemma {:induction false} LeadingLostFits(faults: seq<Fault>)
    ensures LeadingLost(faults) <= |faults|
    ensures forall i :: 0 <= i < LeadingLost(faults) ==> Lost(faults[i])
    ensures LeadingLost(faults) < |faults| ==> !Lost(faults[LeadingLost(faults)])
  {
    if faults != [] && Lost(faults[0]) {
      LeadingLostFits(faults[1..]);
    }
  }

  function FaultAt(faults: seq<Fault>, k: nat): Option<Fault> {
    if k < |faults| then Some(faults[k]) else None
  }

  /** The trace grew by n exchanges, each of which sent exactly these octets. */
  predicate Resent(before: seq<TraceRecord>, after: seq<TraceRecord>, n: nat, request: Bytes) {
    && |after| == |before| + 2 * n
    && after[..|before|] == before
    && forall j :: 0 <= j < n ==>
         var record := after[|before| + 2 * j];
         record.direction == ClientToServer && record.outcome == Sent && record.bytes == request
  }

  lemma ResentTrans(a: seq<TraceRecord>, b: seq<TraceRecord>, c: seq<TraceRecord>, n: nat, request: Bytes)
    requires Resent(a, b, 1, request) && Resent(b, c, n, request)
    ensures Resent(a, c, n + 1, request)
  {
    assert c[..|a|] == c[..|b|][..|a|];
    forall j | 0 <= j < n + 1
      ensures var record := c[|a| + 2 * j];
              record.direction == ClientToServer && record.outcome == Sent && record.bytes == request
    {
      if j == 0 {
        assert c[|a|] == c[..|b|][|a|] == b[|a| + 2 * 0];
      } else {
        assert c[|a| + 2 * j] == c[|b| + 2 * (j - 1)];
      }
    }
  }

  /** One exchange of a connected transport sends the request once. */
  lemma ExchangeSends(s: Link, request: Bytes, deadline: int)
    requires s.connected
    ensures Resent(s.trace, Exchanged(s, request, deadline).0.trace, 1, request)
  {
    hide Exchanged;
    ExchangeFacts(s, request, deadline);
  }

  function Connected(s: Link): Link {
    s.(connected := true)
  }

  /** What one attempt does to the counters, before its outcome is known. */
  function AttemptBegun(c: ClientState, s: Link): ClientState {
    var m := c.metrics;
    c.(metrics := m.(reconnects := m.reconnects + Bit(!s.connected), transportAttempts := m.transportAttempts + 1))
  }

  /** An attempt whose exchange the script loses. */
  lemma LostAttempt(c: ClientState, s: Link, request: Frame, encoded: Bytes, length: nat, deadline: int, attempt: nat)
    requires deadline > 0 && s.faults != [] && Lost(s.faults[0])
    ensures var (c', s', outcome) := Attempt(LOOPBACK, c, s, request, encoded, length, deadline, attempt);
            var error := if s.faults[0] == TimeoutFault then Timeout else Disconnected;
            var begun := CountTimeout(AttemptBegun(c, s), error);
            && s'.faults == s.faults[1..] && !s'.connected && s'.memory == s.memory && s'.policy == s.policy
            && Resent(s.trace, s'.trace, 1, encoded)
            && if attempt < c.maximumReadAttempts then outcome == None && c' == CountRetry(begun)
               else
                 && outcome == Some(Failure(ErrorOf(error), request.requestId, attempt, TransportFailure(error)))
                 && c' == begun
  {
    hide Deliver, Resent;
    ExchangeSends(Connected(s), encoded, deadline);
    assert s.connected ==> Connected(s) == s;
  }

  lemma ReadLeavesMemory(policy: Policy, m: Contents, request: Frame)
    requires Encodable(request) && request.opcode == READ_REQUEST
    ensures Serve(policy, m, Wire(request)).0 == m
  {
    hide Decode, Encode, HasValidSemantics, AnswerTo, MakeResponse;
    DecodeWire(request);
  }

  /** A served exchange on a connected link. */
  lemma ServedExchange(s: Link, request: Bytes, deadline: int)
    requires s.connected && deadline > 0 && (s.faults == [] || !Lost(s.faults[0]))
    ensures var (s', reply) := Exchanged(s, request, deadline);
            var (memory, handled) := Serve(s.policy, s.memory, request);
            && reply == Delivered(Distort(FaultAt(s.faults, 0), handled.response))
            && s'.memory == memory && s'.policy == s.policy && s'.connected
            && s'.faults == s.faults[Min(1, |s.faults|)..]
            && Resent(s.trace, s'.trace, 1, request)
  {
    hide Serve, Distort, Resent;
    ExchangeSends(s, request, deadline);
  }

  /** An attempt whose exchange reaches the server. */
  lemma ServedAttempt(c: ClientState, s: Link, request: Frame, length: nat, deadline: int, attempt: nat)
    requires deadline > 0 && (s.faults == [] || !Lost(s.faults[0]))
    requires Encodable(request) && HasValidSemantics(request) && request.opcode == READ_REQUEST
    requires Expects(request, DATA_RESPONSE, length)
    ensures var (c', s', outcome) := Attempt(LOOPBACK, c, s, request, Wire(request), length, deadline, attempt);
            var r := Reported(AnswerTo(s.policy, s.memory, request), FaultAt(s.faults, 0), request.requestId, attempt);
            && outcome == Some(r)
            && c' == (if IsProtocolError(r.error) then CountProtocolError(AttemptBegun(c, s)) else AttemptBegun(c, s))
            && s'.faults == s.faults[Min(1, |s.faults|)..] && s'.connected
            && s'.memory == s.memory && s'.policy == s.policy
            && Resent(s.trace, s'.trace, 1, Wire(request))
  {
    hide Exchanged, Serve, Distort, Resent, AnswerTo, Encode, HasValidSemantics, Reported, ValidateResponse, Expects;
    var t := Connected(s);
    assert s.connected ==> t == s;
    ServedExchange(t, Wire(request), deadline);
    ReadLeavesMemory(s.policy, s.memory, request);
    ServedReport(AttemptBegun(c, s), s.policy, s.memory, request, FaultAt(s.faults, 0), DATA_RESPONSE, length, attempt);
  }

  /** What a read that may still make n attempts reports. */
  function ReadReport(s: Link, request: Frame, attempt: nat, n: nat): OperationResult
    requires n >= 1 && HasValidSemantics(request)
  {
    var k := LeadingLost(s.faults);
    LeadingLostFits(s.faults);
    if k >= n then
      var error := if s.faults[n - 1] == TimeoutFault then Timeout else Disconnected;
      Failure(ErrorOf(error), request.requestId, attempt + n - 1, TransportFailure(error))
    else Reported(AnswerTo(s.policy, s.memory, request), FaultAt(s.faults, k), request.requestId, attempt + k)
  }

  /** The counters after such a read. */
  function ReadMetrics(before: Metrics, s: Link, n: nat, e: ClientError): Metrics
    requires n >= 1
  {
    var k := LeadingLost(s.faults);
    LeadingLostFits(s.faults);
    before.(transportAttempts := before.transportAttempts + Min(k + 1, n),
            reconnects := before.reconnects + Min(k, n - 1) + Bit(!s.connected),
            retries := before.retries + Min(k, n - 1),
            timeouts := before.timeouts + TimeoutsIn(s.faults[..Min(k, n)]),
            protocolErrors := before.protocolErrors + Bit(IsProtocolError(e)))
  }

  /** The link after such a read. */
  predicate ReadLink(s: Link, s': Link, n: nat, request: Bytes)
    requires n >= 1
  {
    var k := LeadingLost(s.faults);
    && s'.policy == s.policy && s'.memory == s.memory
    && s'.faults == s.faults[Min(Min(k + 1, n), |s.faults|)..]
    && (s'.connected <==> k < n)
    && Resent(s.trace, s'.trace, Min(k + 1, n), request)
  }

  lemma TimeoutsCons(faults: seq<Fault>, n: nat)
    requires 1 <= n <= |faults|
    ensures TimeoutsIn(faults[..n]) == Bit(faults[0] == TimeoutFault) + TimeoutsIn(faults[1..][..n - 1])
  {
    assert faults[..n][1..] == faults[1..][..n - 1];
  }

  lemma LeadingStep(faults: seq<Fault>)
    requires faults != [] && Lost(faults[0])
    ensures LeadingLost(faults) == 1 + LeadingLost(faults[1..])
  {
  }

  /** What is left after a lost attempt that is retried. */
  predicate AfterLoss(s: Link, t: Link) {
    && s.faults != [] && Lost(s.faults[0])
    && t.faults == s.faults[1..] && !t.connected && t.memory == s.memory && t.policy == s.policy
  }

  lemma ReportStep(s: Link, t: Link, request: Frame, attempt: nat, n: nat)
    requires n > 1 && HasValidSemantics(request) && AfterLoss(s, t)
    ensures ReadReport(s, request, attempt, n) == ReadReport(t, request, attempt + 1, n - 1)
  {
    hide AnswerTo, HasValidSemantics, Reported;
    LeadingStep(s.faults);
    LeadingLostFits(s.faults);
    LeadingLostFits(t.faults);
  }

  lemma MetricsStep(c: ClientState, s: Link, t: Link, n: nat, e: ClientError)
    requires n > 1 && AfterLoss(s, t)
    ensures var error := if s.faults[0] == TimeoutFault then Timeout else Disconnected;
            ReadMetrics(c.metrics, s, n, e) ==
            ReadMetrics(CountRetry(CountTimeout(AttemptBegun(c, s), error)).metrics, t, n - 1, e)
  {
    LeadingStep(s.faults);
    LeadingLostFits(s.faults);
    LeadingLostFits(t.faults);
    TimeoutsCons(s.faults, Min(LeadingLost(s.faults), n));
  }

  lemma DropAgain<T>(faults: seq<T>, n: nat)
    requires 1 + n <= |faults|
    ensures faults[1..][n..] == faults[1 + n..]
  {
  }

  lemma LinkStep(s: Link, t: Link, s': Link, n: nat, request: Bytes)
    requires n > 1 && AfterLoss(s, t) && Resent(s.trace, t.trace, 1, request) && ReadLink(t, s', n - 1, request)
    ensures ReadLink(s, s', n, request)
  {
    hide Resent;
    var k := LeadingLost(t.faults);
    assert LeadingLost(s.faults) == 1 + k by { LeadingStep(s.faults); }
    hide LeadingLost;
    DropAgain(s.faults, Min(Min(k + 1, n - 1), |t.faults|));
    ResentTrans(s.trace, t.trace, s'.trace, Min(k + 1, n - 1), request);
  }

  lemma LastLoss(c: ClientState, s: Link, request: Frame, attempt: nat, s': Link, encoded: Bytes)
    requires HasValidSemantics(request) && AfterLoss(s, s') && Resent(s.trace, s'.trace, 1, encoded)
    ensures var error := if s.faults[0] == TimeoutFault then Timeout else Disconnected;
            && ReadReport(s, request, attempt, 1) ==
               Failure(ErrorOf(error), request.requestId, attempt, TransportFailure(error))
            && ReadMetrics(c.metrics, s, 1, ErrorOf(error)) == CountTimeout(AttemptBegun(c, s), error).metrics
            && ReadLink(s, s', 1, encoded)
  {
    hide AnswerTo, HasValidSemantics, Reported, Resent;
    LeadingStep(s.faults);
    LeadingLostFits(s.faults);
    TimeoutsCons(s.faults, 1);
    assert s.faults[1..][..0] == [];
  }

  lemma NothingLost(c: ClientState, s: Link, request: Frame, attempt: nat, n: nat, s': Link, encoded: Bytes)
    requires n >= 1 && HasValidSemantics(request) && (s.faults == [] || !Lost(s.faults[0]))
    requires s'.faults == s.faults[Min(1, |s.faults|)..] && s'.connected
    requires s'.memory == s.memory && s'.policy == s.policy
    requires Resent(s.trace, s'.trace, 1, encoded)
    ensures var r := Reported(AnswerTo(s.policy, s.memory, request), FaultAt(s.faults, 0), request.requestId, attempt);
            && ReadReport(s, request, attempt, n) == r
            && ReadMetrics(c.metrics, s, n, r.error) ==
               (if IsProtocolError(r.error) then CountProtocolError(AttemptBegun(c, s)) else AttemptBegun(c, s)).metrics
            && ReadLink(s, s', n, encoded)
  {
    hide AnswerTo, HasValidSemantics, Reported, Resent;
    assert LeadingLost(s.faults) == 0;
    assert s.faults[..0] == [];
  }

  lemma {:induction false} AttemptsOnLink(c: ClientState, s: Link, request: Frame, length: nat, deadline: int,
                                          attempt: nat)
    requires deadline > 0 && 1 <= attempt <= c.maximumReadAttempts
    requires Encodable(request) && HasValidSemantics(request) && request.opcode == READ_REQUEST
    requires Expects(request, DATA_RESPONSE, length)
    ensures var n := c.maximumReadAttempts - attempt + 1;
            var (c', s', r) := Attempts(LOOPBACK, c, s, request, Wire(request), length, deadline, attempt);
            && r == ReadReport(s, request, attempt, n)
            && c' == c.(metrics := ReadMetrics(c.metrics, s, n, r.error))
            && ReadLink(s, s', n, Wire(request))
    decreases c.maximumReadAttempts - attempt
  {
    hide Attempt, AnswerTo, Encode, HasValidSemantics, Expects, Resent, Reported, ReadReport, ReadMetrics, ReadLink;
    var n := c.maximumReadAttempts - attempt + 1;
    var (c1, s1, outcome) := Attempt(LOOPBACK, c, s, request, Wire(request), length, deadline, attempt);
    if s.faults != [] && Lost(s.faults[0]) {
      LostAttempt(c, s, request, Wire(request), length, deadline, attempt);
      if n > 1 {
        AttemptsOnLink(c1, s1, request, length, deadline, attempt + 1);
        var (_, s', r) := Attempts(LOOPBACK, c1, s1, request, Wire(request), length, deadline, attempt + 1);
        ReportStep(s, s1, request, attempt, n);
        MetricsStep(c, s, s1, n, r.error);
        LinkStep(s, s1, s', n, Wire(request));
      } else {
        LastLoss(c, s, request, attempt, s1, Wire(request));
      }
    } else {
      ServedAttempt(c, s, request, length, deadline, attempt);
      NothingLost(c, s, request, attempt, n, s1, Wire(request));
    }
  }

  lemma ReadRequestFields(id: U32, address: U32, length: nat)
    requires 1 <= length <= MAXIMUM_PAYLOAD_SIZE
    ensures var request := ReadRequest(id, address, length);
            && Encodable(request) && HasValidSemantics(request)
            && Expects(request, DATA_RESPONSE, length)
            && Value32(request.address) == address
            && RequestedLength(request.payload) == length
  {
    hide Encode, HasValidSemantics, Value32, Word32, Value16, Word16, High16, Low16, Join16;
    ReadRequestEncodable(id, address, length);
    EncodableFacts(ReadRequest(id, address, length));
    ValueOfWord32(address);
    ValueOfWord16(length);
    JoinSplit16(Word16(length));
  }

  lemma ReadAnswered(policy: Policy, m: Contents, id: U32, address: U32, length: nat)
    requires 1 <= length <= MAXIMUM_PAYLOAD_SIZE
    ensures HasValidSemantics(ReadRequest(id, address, length))
    ensures AnswerTo(policy, m, ReadRequest(id, address, length)) == ReadAnswer(m, address, length)
  {
    hide Encode, HasValidSemantics, Expects, ReadRange, CharOctet, Value32, Word32, Word16, RequestedLength;
    ReadRequestFields(id, address, length);
  }

  /**
   The exact course of a read over the loopback transport, from every state and under every fault
   script. With k exchanges lost in a row and at most N attempts it makes min(k + 1, N) exchanges, each
   sending the same octets, and uses up as many faults; it retries and reconnects min(k, N - 1) times,
   and once more to connect at first; it ends with the error of the N-th fault exactly when k >= N, and
   otherwise reports what the server made of the request and the next fault of the response.
   */
  lemma ExactRead(c: ClientState, s: Link, address: U32, length: nat, deadline: int)
    requires c.maximumReadAttempts >= 1
    requires 1 <= length <= MAXIMUM_PAYLOAD_SIZE && deadline > 0
    ensures LeadingLost(s.faults) <= |s.faults|
    ensures Encodable(ReadRequest(c.nextRequestId, address, length))
    ensures var n, k := c.maximumReadAttempts, LeadingLost(s.faults);
            var request := ReadRequest(c.nextRequestId, address, length);
            var (c', s', r) := ReadOperation(LOOPBACK, c, s, address, length, deadline);
            && c' == ClientState(n,
                                 Metrics(c.metrics.operations + 1,
                                         c.metrics.transportAttempts + Min(k + 1, n),
                                         c.metrics.reconnects + Min(k, n - 1) + Bit(!s.connected),
                                         c.metrics.retries + Min(k, n - 1),
                                         c.metrics.timeouts + TimeoutsIn(s.faults[..Min(k, n)]),
                                         c.metrics.protocolErrors + Bit(IsProtocolError(r.error))),
                                 NextRequestId(c.nextRequestId))
            && s'.policy == s.policy && s'.memory == s.memory
            && s'.faults == s.faults[Min(Min(k + 1, n), |s.faults|)..]
            && (s'.connected <==> k < n)
            && Resent(s.trace, s'.trace, Min(k + 1, n), Wire(request))
            && r == if k < n then
                      Reported(ReadAnswer(s.memory, address, length), FaultAt(s.faults, k),
                               Word32(c.nextRequestId), k + 1)
                    else if s.faults[n - 1] == TimeoutFault then
                      Failure(TimeoutError, Word32(c.nextRequestId), n, TransportFailure(Timeout))
                    else Failure(DisconnectedError, Word32(c.nextRequestId), n, TransportFailure(Disconnected))
  {
    hide Encode, HasValidSemantics, Attempts, Expects, Resent, Reported, AnswerTo, ReadAnswer, NextRequestId;
    hide Value32, Word32, Word16, RequestedLength, LeadingLost, TimeoutsIn;
    LeadingLostFits(s.faults);
    var request := ReadRequest(c.nextRequestId, address, length);
    ReadRequestFields(c.nextRequestId, address, length);
    AttemptsOnLink(Started(c), s, request, length, deadline, 1);
    ReadAnswered(s.policy, s.memory, c.nextRequestId, address, length);
  }

  /**
   What the bound given to a new client means: with k exchanges lost in a row its first read makes min(k + 1, N)
   exchanges, N being that bound or 1 where it is 0, and fails exactly when k >= N.
   */
  lemma NewClientRetries(option: nat, s: Link, address: U32, length: nat, deadline: int)
    requires 1 <= length <= 256 && deadline > 0
    ensures var bound := if option == 0 then 1 else option;
            var k := LeadingLost(s.faults);
            var (c', s', r) := ReadOperation(LOOPBACK, FreshClient(option), s, address, length, deadline);
            && c'.maximumReadAttempts == bound
            && c'.metrics.transportAttempts == r.attempts == Min(k + 1, bound)
            && |s'.trace| == |s.trace| + 2 * Min(k + 1, bound)
            && (r.error == TimeoutError || r.error == DisconnectedError <==> k >= bound)
  {
    hide ReadOperation, ReadAnswer, Word32, NextRequestId, TimeoutsIn, LeadingLost, FaultAt, Encode;
    ExactRead(FreshClient(option), s, address, length, deadline);
  }

  // ---------- The exact course of a write ----------

  lemma WriteRequestFields(id: U32, address: U32, data: Bytes)
    requires 1 <= |data| <= MAXIMUM_PAYLOAD_SIZE
    ensures var request := WriteRequest(id, address, data);
            && Encodable(request) && HasValidSemantics(request)
            && Expects(request, WRITE_ACKNOWLEDGEMENT, 0)
            && Value32(request.address) == address
  {
    hide Encode, HasValidSemantics, Value32, Word32;
    WriteRequestEncodable(id, address, data);
    EncodableFacts(WriteRequest(id, address, data));
    ValueOfWord32(address);
  }

  lemma WriteServed(policy: Policy, m: Contents, request: Frame, address: U32, data: Bytes)
    requires Encodable(request) && HasValidSemantics(request)
    requires request.opcode == WRITE_REQUEST && request.payload == data && Value32(request.address) == address
    ensures AnswerTo(policy, m, request) == WriteAnswer(policy, address, |data|)
    ensures Serve(policy, m, Wire(request)).0 ==
            if Admits(policy, address, |data|) then Overlay(m, address, data) else m
  {
    hide Decode, Encode, HasValidSemantics, MakeResponse, Value32, CharOctet, RequestedLength;
    DecodeWire(request);
  }

  /**
   The exact course of a write: one exchange, one fault used up, no retry. A lost exchange has not
   reached the server; any other has been applied exactly when policy and map admit the range, whatever
   then happens to the response.
   */
  lemma ExactWrite(c: ClientState, s: Link, address: U32, data: Bytes, deadline: int)
    requires 1 <= |data| <= MAXIMUM_PAYLOAD_SIZE && deadline > 0
    ensures Encodable(WriteRequest(c.nextRequestId, address, data))
    ensures var id := Word32(c.nextRequestId);
            var lost := s.faults != [] && Lost(s.faults[0]);
            var error := if FaultAt(s.faults, 0) == Some(TimeoutFault) then Timeout else Disconnected;
            var (c', s', r) := WriteOperation(LOOPBACK, c, s, address, data, deadline);
            && c' == ClientState(c.maximumReadAttempts,
                                 Metrics(c.metrics.operations + 1,
                                         c.metrics.transportAttempts + 1,
                                         c.metrics.reconnects + Bit(!s.connected),
                                         c.metrics.retries,
                                         c.metrics.timeouts + Bit(FaultAt(s.faults, 0) == Some(TimeoutFault)),
                                         c.metrics.protocolErrors + Bit(IsProtocolError(r.error))),
                                 NextRequestId(c.nextRequestId))
            && s'.policy == s.policy
            && s'.faults == s.faults[Min(1, |s.faults|)..]
            && (s'.connected <==> !lost)
            && Resent(s.trace, s'.trace, 1, Wire(WriteRequest(c.nextRequestId, address, data)))
            && s'.memory == (if !lost && Admits(s.policy, address, |data|) then Overlay(s.memory, address, data)
                             else s.memory)
            && r == if lost then Failure(ErrorOf(error), id, 1, NotRetried(error))
                    else Reported(WriteAnswer(s.policy, address, |data|), FaultAt(s.faults, 0), id, 1)
  {
    hide Encode, HasValidSemantics, Expects, Resent, Reported, Serve, Distort, ValidateResponse, AnswerTo, WriteAnswer;
    hide Value32, Word32, Admits, NextRequestId, Exchanged, Overlay;
    var request := WriteRequest(c.nextRequestId, address, data);
    WriteRequestFields(c.nextRequestId, address, data);
    var t := Connected(s);
    assert s.connected ==> t == s;
    if s.faults != [] && Lost(s.faults[0]) {
      LostExchange(t, Wire(request), deadline);
    } else {
      ServedExchange(t, Wire(request), deadline);
      WriteServed(s.policy, s.memory, request, address, data);
      ServedReport(AttemptBegun(Started(c), s), s.policy, s.memory, request, FaultAt(s.faults, 0),
          WRITE_ACKNOWLEDGEMENT, 0, 1);
    }
  }

  lemma LostExchange(s: Link, request: Bytes, deadline: int)
    requires s.connected && deadline > 0 && s.faults != [] && Lost(s.faults[0])
    ensures var (s', reply) := Exchanged(s, request, deadline);
            && reply == Failed(if s.faults[0] == TimeoutFault then Timeout else Disconnected)
            && s'.memory == s.memory && s'.policy == s.policy && s'.faults == s.faults[1..]
            && Resent(s.trace, s'.trace, 1, request)
  {
    hide Deliver, Resent;
    ExchangeSends(s, request, deadline);
  }

  // ---------- The whole stack as an array of octets ----------

  datatype System = System(client: ClientState, link: Link)

  datatype Command =
    | Read(address: U32, length: nat, deadline: int)
    | Write(address: U32, data: Bytes, deadline: int)
    | PushFault(fault: Fault)
    | Connect
    | Close
    | ClearTrace

  function Step(sys: System, command: Command): (System, Option<OperationResult>) {
    match command
    case Read(address, length, deadline) =>
      var (c, s, r) := ReadOperation(LOOPBACK, sys.client, sys.link, address, length, deadline);
      (System(c, s), Some(r))
    case Write(address, data, deadline) =>
      var (c, s, r) := WriteOperation(LOOPBACK, sys.client, sys.link, address, data, deadline);
      (System(c, s), Some(r))
    case PushFault(fault) => (sys.(link := Act(sys.link, DoPushFault(fault))), None)
    case Connect => (sys.(link := Act(sys.link, DoConnect)), None)
    case Close => (sys.(link := Act(sys.link, DoClose)), None)
    case ClearTrace => (sys.(link := Act(sys.link, DoClearTrace)), None)
  }

  function Steps(sys: System, commands: seq<Command>): (System, seq<Option<OperationResult>>)
    decreases |commands|
  {
    if commands == [] then (sys, [])
    else
      var (next, r) := Step(sys, commands[0]);
      var (last, rs) := Steps(next, commands[1..]);
      (last, [r] + rs)
  }

  /** Whether a write with this result has changed the array: the client's report nearly tells. */
  predicate Applied(policy: Policy, address: U32, length: nat, e: ClientError) {
    e == NoError || ((e == MalformedResponse || e == CorrelationMismatch) && Admits(policy, address, length))
  }

  /** The array after a command, given what the client reported. */
  function ArrayAfter(policy: Policy, m: Contents, command: Command, result: Option<OperationResult>): Contents {
    if command.Write? && result.Some? && command.address + |command.data| <= CAPACITY &&
       Applied(policy, command.address, |command.data|, result.value.error)
    then Overlay(m, command.address, command.data)
    else m
  }

  predicate BadRequest(length: nat, deadline: int) {
    length == 0 || length > MAXIMUM_PAYLOAD_SIZE || deadline <= 0
  }

  /** What the client may report for a command when the array is m. */
  predicate Faithful(policy: Policy, m: Contents, command: Command, result: Option<OperationResult>) {
    match command
    case Read(address, length, deadline) =>
      && result.Some?
      && var r := result.value;
         && (r.error == InvalidArgument <==> BadRequest(length, deadline))
         && (r.error == NoError ==> address + length <= 0x800 && r.data == Slice(m, address, length))
         && (r.error == RemoteError ==> address + length > 0x800)
         && r.error !in {UnexpectedResponse, EncodingFailed, ConnectFailed}
    case Write(address, data, deadline) =>
      && result.Some?
      && var r := result.value;
         && (r.error == InvalidArgument <==> BadRequest(|data|, deadline))
         && (r.error == NoError ==> Admits(policy, address, |data|))
         && (r.error == RemoteError ==> !Admits(policy, address, |data|))
         && (Applied(policy, address, |data|, r.error) ==> address + |data| <= CAPACITY)
         && r.error !in {UnexpectedResponse, EncodingFailed, ConnectFailed}
    case _ => result.None?
  }

  lemma AdmitsFits(policy: Policy, address: U32, length: nat)
    requires Admits(policy, address, length)
    ensures address + length <= CAPACITY
    ensures WriteAnswer(policy, address, length).opcode != ERROR_RESPONSE
  {
    WriteSucceeds(address, length);
  }

  lemma RefusedAnswer(policy: Policy, address: U32, length: nat)
    requires !Admits(policy, address, length)
    ensures WriteAnswer(policy, address, length).opcode == ERROR_RESPONSE
  {
  }

  lemma ReportedRead(policy: Policy, m: Contents, address: U32, length: nat, deadline: int, fault: Option<Fault>,
                     id: bv32, attempts: nat)
    requires !BadRequest(length, deadline)
    ensures Faithful(policy, m, Read(address, length, deadline),
                     Some(Reported(ReadAnswer(m, address, length), fault, id, attempts)))
  {
    hide CharOctet;
    ReadSucceeds(m, address, length);
  }

  lemma ReportedWrite(policy: Policy, m: Contents, address: U32, data: Bytes, deadline: int, fault: Option<Fault>,
                      id: bv32, attempts: nat)
    requires !BadRequest(|data|, deadline)
    ensures var r := Reported(WriteAnswer(policy, address, |data|), fault, id, attempts);
            && Faithful(policy, m, Write(address, data, deadline), Some(r))
            && (Applied(policy, address, |data|, r.error) <==> Admits(policy, address, |data|))
            && (Admits(policy, address, |data|) ==> address + |data| <= CAPACITY)
  {
    hide Admits, WriteAnswer;
    if Admits(policy, address, |data|) {
      AdmitsFits(policy, address, |data|);
    } else {
      RefusedAnswer(policy, address, |data|);
    }
  }

  /** Reports that concern neither the server nor its memory. */
  predicate IsLocal(r: OperationResult) {
    r.error == TimeoutError || r.error == DisconnectedError
  }

  lemma LocalReport(policy: Policy, m: Contents, command: Command, r: OperationResult)
    requires match command
             case Read(_, length, deadline) => !BadRequest(length, deadline)
             case Write(_, data, deadline) => !BadRequest(|data|, deadline)
             case _ => false
    requires IsLocal(r)
    ensures Faithful(policy, m, command, Some(r))
    ensures ArrayAfter(policy, m, command, Some(r)) == m
  {
    hide Admits;
  }

  lemma RefusedLocally(sys: System, address: U32, length: nat, deadline: int)
    requires BadRequest(length, deadline)
    ensures ReadOperation(LOOPBACK, sys.client, sys.link, address, length, deadline) ==
            (Started(sys.client), sys.link, Failure(InvalidArgument, Word32(sys.client.nextRequestId), 0, BadArguments))
  {
    hide ExecuteRead, Word32, NextRequestId;
  }

  /** The parts of the exact course that matter for the array. */
  lemma ReadOutcome(sys: System, address: U32, length: nat, deadline: int)
    requires sys.client.maximumReadAttempts >= 1 && !BadRequest(length, deadline)
    ensures var (c, s, r) := ReadOperation(LOOPBACK, sys.client, sys.link, address, length, deadline);
            var k := LeadingLost(sys.link.faults);
            && (if k < sys.client.maximumReadAttempts then
                  r == Reported(ReadAnswer(sys.link.memory, address, length), FaultAt(sys.link.faults, k),
                                Word32(sys.client.nextRequestId), k + 1)
                else IsLocal(r))
            && s.memory == sys.link.memory && s.policy == sys.link.policy
            && c.maximumReadAttempts == sys.client.maximumReadAttempts
  {
    hide ReadOperation, ReadAnswer, Reported, Word32, Resent, NextRequestId, TimeoutsIn, LeadingLost, FaultAt;
    ExactRead(sys.client, sys.link, address, length, deadline);
  }

  lemma ReadStepFaithful(sys: System, address: U32, length: nat, deadline: int)
    requires sys.client.maximumReadAttempts >= 1
    ensures var (c, s, r) := ReadOperation(LOOPBACK, sys.client, sys.link, address, length, deadline);
            && Faithful(sys.link.policy, sys.link.memory, Read(address, length, deadline), Some(r))
            && s.memory == sys.link.memory && s.policy == sys.link.policy
            && c.maximumReadAttempts == sys.client.maximumReadAttempts
  {
    hide ReadOperation, ReadAnswer, Reported, Word32, NextRequestId, LeadingLost, FaultAt;
    if BadRequest(length, deadline) {
      RefusedLocally(sys, address, length, deadline);
    } else {
      hide Faithful;
      ReadOutcome(sys, address, length, deadline);
      var (_, _, r) := ReadOperation(LOOPBACK, sys.client, sys.link, address, length, deadline);
      var k := LeadingLost(sys.link.faults);
      ReportedRead(sys.link.policy, sys.link.memory, address, length, deadline, FaultAt(sys.link.faults, k),
                   Word32(sys.client.nextRequestId), k + 1);
      if IsLocal(r) {
        LocalReport(sys.link.policy, sys.link.memory, Read(address, length, deadline), r);
      }
    }
  }

  lemma WriteStepFaithful(sys: System, address: U32, data: Bytes, deadline: int)
    ensures var (c, s, r) := WriteOperation(LOOPBACK, sys.client, sys.link, address, data, deadline);
            var command := Write(address, data, deadline);
            && Faithful(sys.link.policy, sys.link.memory, command, Some(r))
            && s.memory == ArrayAfter(sys.link.policy, sys.link.memory, command, Some(r))
            && s.policy == sys.link.policy
            && c.maximumReadAttempts == sys.client.maximumReadAttempts
  {
    var policy, m, faults := sys.link.policy, sys.link.memory, sys.link.faults;
    if BadRequest(|data|, deadline) {
      hide ExecuteWrite, Word32, NextRequestId, Admits;
    } else {
      hide WriteOperation, WriteAnswer, Reported, Faithful, Word32, Resent, NextRequestId, Admits, Applied;
      ExactWrite(sys.client, sys.link, address, data, deadline);
      var (_, _, r) := WriteOperation(LOOPBACK, sys.client, sys.link, address, data, deadline);
      if faults != [] && Lost(faults[0]) {
        LocalReport(policy, m, Write(address, data, deadline), r);
      } else {
        ReportedWrite(policy, m, address, data, deadline, FaultAt(faults, 0), Word32(sys.client.nextRequestId), 1);
      }
    }
  }

  /** Every step of the stack is a step of the array, and its report is true of the array. */
  lemma StepRefines(sys: System, command: Command)
    requires sys.client.maximumReadAttempts >= 1
    ensures var (next, result) := Step(sys, command);
            && Faithful(sys.link.policy, sys.link.memory, command, result)
            && next.link.memory == ArrayAfter(sys.link.policy, sys.link.memory, command, result)
            && next.link.policy == sys.link.policy
            && next.client.maximumReadAttempts == sys.client.maximumReadAttempts
  {
    match command
    case Read(address, length, deadline) =>
      hide ReadOperation, Faithful;
      ReadStepFaithful(sys, address, length, deadline);
    case Write(address, data, deadline) =>
      hide WriteOperation, Faithful, Applied;
      WriteStepFaithful(sys, address, data, deadline);
    case _ =>
  }

  function ArrayRun(policy: Policy, m: Contents, commands: seq<Command>,
      results: seq<Option<OperationResult>>): Contents
    requires |commands| == |results|
    decreases |commands|
  {
    if commands == [] then m
    else ArrayRun(policy, ArrayAfter(policy, m, commands[0], results[0]), commands[1..], results[1..])
  }

  predicate AllFaithful(policy: Policy, m: Contents, commands: seq<Command>, results: seq<Option<OperationResult>>)
    requires |commands| == |results|
    decreases |commands|
  {
    commands != [] ==>
      && Faithful(policy, m, commands[0], results[0])
      && AllFaithful(policy, ArrayAfter(policy, m, commands[0], results[0]), commands[1..], results[1..])
  }

  /**
   End-to-end refinement. Over every sequence of commands and every fault script the memory behind the
   stack is the array that the client's reports describe, and every report is true of that array when it
   is made: successful reads return its current octets, reads never change it, and each write is applied
   as a whole or not at all.
   */
  lemma {:induction false} Refinement(sys: System, commands: seq<Command>)
    requires sys.client.maximumReadAttempts >= 1
    ensures var (last, results) := Steps(sys, commands);
            && |results| == |commands|
            && last.link.memory == ArrayRun(sys.link.policy, sys.link.memory, commands, results)
            && AllFaithful(sys.link.policy, sys.link.memory, commands, results)
    decreases |commands|
  {
    hide Step, Faithful, ArrayAfter;
    if commands != [] {
      StepRefines(sys, commands[0]);
      var (next, r) := Step(sys, commands[0]);
      Refinement(next, commands[1..]);
      var (last, rs) := Steps(next, commands[1..]);
      assert ([r] + rs)[1..] == rs;
    }
  }

  /**
   Fault classification: the fault that meets a response decides what is reported, for every valid
   operation from every state. A truncated response is malformed by truncation, a corrupted one by its
   checksum, and a renumbered one is a correlation mismatch, also when the ID wraps around.
   */
  lemma FaultClassification(sys: System, command: Command)
    requires sys.client.maximumReadAttempts >= 1
    requires match command
             case Read(_, length, deadline) => !BadRequest(length, deadline)
             case Write(_, data, deadline) => !BadRequest(|data|, deadline)
             case _ => false
    ensures var k := LeadingLost(sys.link.faults);
            var reaches := if command.Read? then k < sys.client.maximumReadAttempts else k == 0;
            var fault, result := FaultAt(sys.link.faults, k), Step(sys, command).1;
            && result.Some?
            && var r := result.value;
               if !reaches then r.error == TimeoutError || r.error == DisconnectedError
               else match fault
                    case Some(TruncateResponse) => r.error == MalformedResponse && r.detail == CodecFailure(Truncated)
                    case Some(CorruptResponse) =>
                      r.error == MalformedResponse && r.detail == CodecFailure(ChecksumMismatch)
                    case Some(WrongRequestId) => r.error == CorrelationMismatch
                    case _ => r.error == NoError || r.error == RemoteError
  {
    hide ReadAnswer, WriteAnswer, Reported, Word32, ReadOperation, WriteOperation;
    var faults, k := sys.link.faults, LeadingLost(sys.link.faults);
    LeadingLostFits(faults);
    match command
    case Read(address, length, deadline) =>
      ReadOutcome(sys, address, length, deadline);
      ReportedByFault(ReadAnswer(sys.link.memory, address, length), FaultAt(faults, k),
          Word32(sys.client.nextRequestId), k + 1);
    case Write(address, data, deadline) =>
      WriteOutcome(sys, address, data, deadline);
      ReportedByFault(WriteAnswer(sys.link.policy, address, |data|), FaultAt(faults, k),
          Word32(sys.client.nextRequestId), 1);
  }

  lemma ReportedByFault(answer: Answer, fault: Option<Fault>, id: bv32, attempts: nat)
    ensures var r := Reported(answer, fault, id, attempts);
            match fault
            case Some(TruncateResponse) => r.error == MalformedResponse && r.detail == CodecFailure(Truncated)
            case Some(CorruptResponse) => r.error == MalformedResponse && r.detail == CodecFailure(ChecksumMismatch)
            case Some(WrongRequestId) => r.error == CorrelationMismatch
            case _ => r.error == NoError || r.error == RemoteError
  {
  }

  lemma WriteOutcome(sys: System, address: U32, data: Bytes, deadline: int)
    requires !BadRequest(|data|, deadline)
    ensures var r := WriteOperation(LOOPBACK, sys.client, sys.link, address, data, deadline).2;
            if LeadingLost(sys.link.faults) == 0 then
              r == Reported(WriteAnswer(sys.link.policy, address, |data|), FaultAt(sys.link.faults, 0),
                            Word32(sys.client.nextRequestId), 1)
            else IsLocal(r)
  {
    hide WriteOperation, WriteAnswer, Reported, Word32, Resent, NextRequestId, Admits, Overlay;
    ExactWrite(sys.client, sys.link, address, data, deadline);
  }
}
