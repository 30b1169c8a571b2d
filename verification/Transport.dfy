/** The loopback transport: connection, fault script and packet trace (src/transport.cpp). */
module Transport {
  import opened Words
  import opened Frames
  import opened Codec
  import opened Memory
  import opened Server

  datatype TransportError = NotConnected | Timeout | Disconnected

  datatype Reply = Delivered(bytes: Bytes) | Failed(error: TransportError)

  datatype Fault = TimeoutFault | DisconnectFault | TruncateResponse | CorruptResponse | WrongRequestId

  datatype Direction = ClientToServer | ServerToClient

  datatype Outcome = Sent | DeadlineExpired | TimedOut | LinkLost | RequestRejected | Handled(detail: Detail)

  datatype TraceRecord = TraceRecord(sequence: nat, direction: Direction, outcome: Outcome, bytes: Bytes)

  /** The state of a transport together with the server it drives. */
  datatype Link = Link(
    policy: Policy,
    memory: Contents,
    connected: bool,
    faults: seq<Fault>,
    trace: seq<TraceRecord>,
    nextSequence: nat)

  function FreshLink(policy: Policy, memory: Contents): Link {
    Link(policy, memory, false, [], [], 1)
  }

  function Recorded(s: Link, direction: Direction, outcome: Outcome, bytes: Bytes): Link {
    s.(trace := s.trace + [TraceRecord(s.nextSequence, direction, outcome, bytes)], nextSequence := s.nextSequence + 1)
  }

  /** What a fault makes of a response. */
  function Distort(fault: Option<Fault>, response: Bytes): Bytes {
    if fault == Some(TruncateResponse) && response != [] then response[..|response| - 1]
    else if fault == Some(CorruptResponse) && response != [] then
      response[|response| - 1 := response[|response| - 1] ^ 0x01]
    else if fault == Some(WrongRequestId) then
      match Decode(response)
      case Rejected(_, _) => response
      case Decoded(frame, _) =>
        match Encode(frame.(requestId := frame.requestId + 1))
        case NotEncoded(_) => response
        case Encoded(bytes) => bytes
    else response
  }

  function NextFault(s: Link): Option<Fault> {
    if s.faults == [] then None else Some(s.faults[0])
  }

  function DropFault(s: Link): Link {
    s.(faults := if s.faults == [] then [] else s.faults[1..])
  }

  function EventOutcome(event: Event): Outcome {
    if event.requestDecoded then Handled(event.detail) else RequestRejected
  }

  /** The server's turn, and the response record. */
  function Deliver(s: Link, fault: Option<Fault>, request: Bytes): (Link, Reply) {
    var (memory, handled) := Serve(s.policy, s.memory, request);
    var response := Distort(fault, handled.response);
    (Recorded(s.(memory := memory), ServerToClient, EventOutcome(handled.event), response), Delivered(response))
  }

  function Exchanged(s: Link, request: Bytes, deadline: int): (Link, Reply) {
    if !s.connected then (s, Failed(NotConnected))
    else
      var sent := Recorded(s, ClientToServer, Sent, request);
      if deadline <= 0 then (Recorded(sent, ServerToClient, DeadlineExpired, []), Failed(Timeout))
      else
        var fault := NextFault(sent);
        var rest := DropFault(sent);
        if fault == Some(TimeoutFault) then (Recorded(rest, ServerToClient, TimedOut, []), Failed(Timeout))
        else if fault == Some(DisconnectFault) then
          (Recorded(rest.(connected := false), ServerToClient, LinkLost, []), Failed(Disconnected))
        else Deliver(rest, fault, request)
  }

  class LoopbackTransport {
    const server: MemoryServer
    var connected: bool
    var faults: seq<Fault>
    var trace: seq<TraceRecord>
    var nextSequence: nat

    ghost predicate Valid() {
      server.Valid()
    }

    ghost function State(): Link
      requires Valid()
      reads this, server.memory.bytes
    {
      Link(server.policy, server.Value(), connected, faults, trace, nextSequence)
    }

    constructor (server: MemoryServer)
      requires server.Valid()
      ensures Valid() && this.server == server
      ensures !connected && faults == [] && trace == [] && nextSequence == 1
      ensures State() == FreshLink(server.policy, server.Value())
    {
      this.server := server;
      connected := false;
      faults := [];
      trace := [];
      nextSequence := 1;
    }

    method Connect() returns (ok: bool)
      requires Valid()
      modifies this
      ensures ok && State() == old(State()).(connected := true)
    {
      connected := true;
      return true;
    }

    method Close()
      requires Valid()
      modifies this
      ensures State() == old(State()).(connected := false)
    {
      connected := false;
    }

    method PushFault(fault: Fault)
      requires Valid()
      modifies this
      ensures State() == old(State()).(faults := old(State()).faults + [fault])
    {
      faults := faults + [fault];
    }

    method ClearTrace()
      requires Valid()
      modifies this
      ensures State() == old(State()).(trace := [])
    {
      trace := [];
    }

    method Record(direction: Direction, outcome: Outcome, bytes: Bytes)
      requires Valid()
      modifies this
      ensures State() == Recorded(old(State()), direction, outcome, bytes)
    {
      trace := trace + [TraceRecord(nextSequence, direction, outcome, bytes)];
      nextSequence := nextSequence + 1;
    }

    method Exchange(request: Bytes, deadline: int) returns (reply: Reply)
      requires Valid()
      modifies this, server.memory.bytes
      ensures (State(), reply) == Exchanged(old(State()), request, deadline)
    {
      hide Serve, Distort;
      if !connected {
        return Failed(NotConnected);
      }
      Record(ClientToServer, Sent, request);
      if deadline <= 0 {
        Record(ServerToClient, DeadlineExpired, []);
        return Failed(Timeout);
      }
      var fault := None;
      if faults != [] {
        fault := Some(faults[0]);
        faults := faults[1..];
      }
      if fault == Some(TimeoutFault) {
        Record(ServerToClient, TimedOut, []);
        return Failed(Timeout);
      }
      if fault == Some(DisconnectFault) {
        connected := false;
        Record(ServerToClient, LinkLost, []);
        return Failed(Disconnected);
      }
      var handled := server.Handle(request);
      var response := ApplyFault(fault, handled.response);
      var outcome := if handled.event.requestDecoded then Handled(handled.event.detail) else RequestRejected;
      Record(ServerToClient, outcome, response);
      return Delivered(response);
    }

    /** The response is changed in place before it is recorded and returned. */
    method ApplyFault(fault: Option<Fault>, handled: Bytes) returns (response: Bytes)
      ensures response == Distort(fault, handled)
    {
      hide Decode, Encode;
      response := handled;
      if fault == Some(TruncateResponse) && response != [] {
        response := response[..|response| - 1];
      } else if fault == Some(CorruptResponse) && response != [] {
        response := response[|response| - 1 := response[|response| - 1] ^ 0x01];
      } else if fault == Some(WrongRequestId) {
        var decoded := Decode(response);
        if decoded.Decoded? {
          var frame := decoded.frame.(requestId := decoded.frame.requestId + 1);
          var encoded := EncodeFrame(frame);
          if encoded.Encoded? {
            response := encoded.bytes;
          }
        }
      }
    }
  }

  // ---------- What each fault does to a response ----------

  lemma FlippedOctet(b: bv8)
    ensures b ^ 0x01 != b
  {
  }

  lemma NextIdDiffers(id: bv32)
    ensures id + 1 != id
  {
  }

  lemma RenumberedEncodable(frame: Frame, id: bv32)
    requires Encodable(frame)
    ensures Encodable(frame.(requestId := id))
  {
    hide Covered;
  }

  /** Every distorted response is told apart, also when the request ID wraps around. */
  lemma DistortedResponse(frame: Frame, fault: Option<Fault>)
    requires Encodable(frame)
    ensures var distorted := Decode(Distort(fault, Wire(frame)));
            match fault
            case Some(TruncateResponse) => distorted == Rejected(Truncated, 0)
            case Some(CorruptResponse) => distorted == Rejected(ChecksumMismatch, |Wire(frame)|)
            case Some(WrongRequestId) =>
              && distorted == Decoded(frame.(requestId := frame.requestId + 1), |Wire(frame)|)
              && frame.requestId + 1 != frame.requestId
            case _ => distorted == Decoded(frame, |Wire(frame)|)
  {
    hide Decode, Encode, HasValidSemantics;
    var wire := Wire(frame);
    DecodeWire(frame);
    EncodableFacts(frame);
    var n := |wire|;
    match fault
    case Some(TruncateResponse) =>
      CutShort(frame, n - 1);
    case Some(CorruptResponse) =>
      FlippedOctet(wire[n - 1]);
      ChangedChecksum(frame, wire[n - 1 := wire[n - 1] ^ 0x01]);
    case Some(WrongRequestId) =>
      var renumbered := frame.(requestId := frame.requestId + 1);
      NextIdDiffers(frame.requestId);
      RenumberedEncodable(frame, frame.requestId + 1);
      DecodeWire(renumbered);
      EncodableFacts(renumbered);
    case _ =>
  }

  // ---------- Runs of the transport ----------

  datatype Action =
    | DoExchange(request: Bytes, deadline: int)
    | DoConnect
    | DoClose
    | DoPushFault(fault: Fault)
    | DoClearTrace

  function Act(s: Link, action: Action): Link {
    match action
    case DoExchange(request, deadline) => Exchanged(s, request, deadline).0
    case DoConnect => s.(connected := true)
    case DoClose => s.(connected := false)
    case DoPushFault(fault) => s.(faults := s.faults + [fault])
    case DoClearTrace => s.(trace := [])
  }

  function ActAll(s: Link, actions: seq<Action>): Link
    decreases |actions|
  {
    if actions == [] then s else ActAll(Act(s, actions[0]), actions[1..])
  }

  /**
   One exchange on a connected transport: exactly two records, first the request, byte for byte, then
   what came of it, and at most one fault used up. On a disconnected transport nothing happens.
   */
  lemma ExchangeFacts(s: Link, request: Bytes, deadline: int)
    ensures var (after, reply) := Exchanged(s, request, deadline);
            if !s.connected then after == s && reply == Failed(NotConnected)
            else
              && after.policy == s.policy
              && after.nextSequence == s.nextSequence + 2
              && |after.trace| == |s.trace| + 2
              && after.trace[..|s.trace|] == s.trace
              && after.trace[|s.trace|] == TraceRecord(s.nextSequence, ClientToServer, Sent, request)
              && after.trace[|s.trace| + 1].sequence == s.nextSequence + 1
              && after.trace[|s.trace| + 1].direction == ServerToClient
              && after.trace[|s.trace| + 1].outcome != Sent
              && (after.trace[|s.trace| + 1].outcome == DeadlineExpired <==> deadline <= 0)
              && after.faults == (if deadline <= 0 || s.faults == [] then s.faults else s.faults[1..])
              && (after.connected <==> !(deadline > 0 && NextFault(s) == Some(DisconnectFault)))
              && (reply.Delivered? <==>
                    after.trace[|s.trace| + 1].outcome.Handled? || after.trace[|s.trace| + 1].outcome.RequestRejected?)
              && (reply.Delivered? ==> after.trace[|s.trace| + 1].bytes == reply.bytes)
              && after.memory == if reply.Delivered? then Serve(s.policy, s.memory, request).0 else s.memory
  {
    hide Serve, Distort;
  }

  /** What a fault makes of the octets of a response. */
  predicate IsDistorted(fault: Option<Fault>, response: Bytes, bytes: Bytes) {
    var n := |response|;
    match fault
    case Some(TruncateResponse) => |bytes| + 1 == n && forall i :: 0 <= i < |bytes| ==> bytes[i] == response[i]
    case Some(CorruptResponse) =>
      && |bytes| == n > 0 && bytes[n - 1] == response[n - 1] ^ 0x01
      && forall i :: 0 <= i < n - 1 ==> bytes[i] == response[i]
    case Some(WrongRequestId) =>
      && Decode(response).Decoded?
      && Encode(Decode(response).frame.(requestId := Decode(response).frame.requestId + 1)) == Encoded(bytes)
    case _ => bytes == response
  }

  lemma DistortedOctets(frame: Frame, fault: Option<Fault>)
    requires Encodable(frame)
    ensures IsDistorted(fault, Wire(frame), Distort(fault, Wire(frame)))
  {
    hide Decode, Encode;
    DecodeWire(frame);
    EncodableFacts(frame);
    RenumberedEncodable(frame, frame.requestId + 1);
  }

  lemma NothingDistorted(fault: Option<Fault>)
    ensures Distort(fault, []) == []
  {
    EmptyRejected();
    hide Decode;
  }

  /** The fault that meets the next exchange. */
  predicate Meets(s: Link, fault: Fault) {
    s.faults != [] && s.faults[0] == fault
  }

  /**
   What one exchange on a connected transport comes to: the outcome on record from the deadline, the next
   fault and the request alone, and the reply that goes with each outcome.
   */
  lemma ExchangeOutcome(s: Link, request: Bytes, deadline: int)
    requires s.connected
    ensures var (after, reply) := Exchanged(s, request, deadline);
            && |after.trace| == |s.trace| + 2
            && var record := after.trace[|s.trace| + 1];
               var lost := deadline <= 0 || Meets(s, TimeoutFault) || Meets(s, DisconnectFault);
               && (record.outcome == DeadlineExpired <==> deadline <= 0)
               && (record.outcome == TimedOut <==> deadline > 0 && Meets(s, TimeoutFault))
               && (record.outcome == LinkLost <==> deadline > 0 && Meets(s, DisconnectFault))
               && (record.outcome == RequestRejected <==> !lost && Decode(request).Rejected?)
               && (!lost && Decode(request).Decoded? ==>
                     record.outcome == Handled(DetailFor(s.policy, Decode(request).frame)))
               && reply == (if record.outcome == DeadlineExpired || record.outcome == TimedOut then Failed(Timeout)
                            else if record.outcome == LinkLost then Failed(Disconnected)
                            else Delivered(record.bytes))
               && (lost ==> record.bytes == [] && after.memory == s.memory)
               && (after.connected <==> record.outcome != LinkLost)
  {
    hide Decode, Serve, Distort, DetailFor;
    ServedEvent(s.policy, s.memory, request);
  }

  lemma ServedEvent(policy: Policy, m: Contents, request: Bytes)
    ensures EventOutcome(Serve(policy, m, request).1.event) ==
            match Decode(request)
            case Rejected(_, _) => RequestRejected
            case Decoded(frame, _) => Handled(DetailFor(policy, frame))
  {
    hide Decode, Serve, DetailFor, ContentIs;
    if Decode(request).Decoded? {
      ResponseContent(policy, m, request);
    } else {
      UndecodableIgnored(policy, m, request);
    }
  }

  /** What is delivered: nothing for a request that does not decode, else the response as the fault leaves it. */
  lemma ExchangeDelivers(s: Link, request: Bytes, deadline: int)
    requires s.connected && deadline > 0 && !Meets(s, TimeoutFault) && !Meets(s, DisconnectFault)
    ensures var reply := Exchanged(s, request, deadline).1;
            var response := Serve(s.policy, s.memory, request).1.response;
            && reply.Delivered?
            && if Decode(request).Rejected? then reply.bytes == []
               else IsDistorted(if s.faults == [] then None else Some(s.faults[0]), response, reply.bytes)
  {
    hide Decode, Encode, Serve, Distort, IsDistorted, AnswerTo, HasValidSemantics;
    if Decode(request).Decoded? {
      ResponseIsWire(s.policy, s.memory, request);
      var frame := Decode(request).frame;
      DistortedOctets(ResponseFrame(frame, AnswerTo(s.policy, s.memory, frame)), NextFault(s));
    } else {
      UndecodableIgnored(s.policy, s.memory, request);
      NothingDistorted(NextFault(s));
    }
  }

  /**
   A new transport exchanges nothing until it is connected; its first exchange then gets records 1 and 2 and
   the response as it is.
   */
  lemma NewTransport(policy: Policy, memory: Contents, request: Bytes, deadline: int)
    ensures Exchanged(FreshLink(policy, memory), request, deadline) ==
            (FreshLink(policy, memory), Failed(NotConnected))
    ensures FreshLink(policy, memory).trace == []
    ensures deadline > 0 ==>
              var (after, reply) := Exchanged(Act(FreshLink(policy, memory), DoConnect), request, deadline);
              && reply == Delivered(Serve(policy, memory, request).1.response)
              && after.memory == Serve(policy, memory, request).0
              && after.faults == [] && |after.trace| == 2
              && after.trace[0].sequence == 1 && after.trace[1].sequence == 2
  {
    hide Serve, Decode, Encode;
  }

  // ---------- The fault script ----------

  function PushedFaults(actions: seq<Action>): seq<Fault> {
    if actions == [] then [] else PushedFault(actions[0]) + PushedFaults(actions[1..])
  }

  function PushedFault(a: Action): seq<Fault> {
    if a.DoPushFault? then [a.fault] else []
  }

  /** The fault that an action meets, if it is an exchange. */
  function MetFault(s: Link, a: Action): seq<Fault> {
    if a.DoExchange? && s.connected && a.deadline > 0 && s.faults != [] then [s.faults[0]] else []
  }

  function MetFaults(s: Link, actions: seq<Action>): seq<Fault>
    decreases |actions|
  {
    if actions == [] then [] else MetFault(s, actions[0]) + MetFaults(Act(s, actions[0]), actions[1..])
  }

  /** First in, first out: the faults met and then those left are the faults there were and then those pushed. */
  lemma {:induction false} FaultsConserved(s: Link, actions: seq<Action>)
    ensures MetFaults(s, actions) + ActAll(s, actions).faults == s.faults + PushedFaults(actions)
    decreases |actions|
  {
    hide Act, MetFault, PushedFault;
    if actions == [] {
      assert s.faults + [] == s.faults == [] + s.faults;
    } else {
      var a, rest := actions[0], actions[1..];
      var t := Act(s, a);
      FaultMet(s, a);
      FaultsConserved(t, rest);
      Associate(MetFault(s, a), MetFaults(t, rest), ActAll(t, rest).faults);
      Associate(MetFault(s, a), t.faults, PushedFaults(rest));
      Associate(s.faults, PushedFault(a), PushedFaults(rest));
    }
  }

  lemma FaultMet(s: Link, a: Action)
    ensures MetFault(s, a) + Act(s, a).faults == s.faults + PushedFault(a)
  {
    hide Exchanged;
    if a.DoExchange? {
      ExchangeFacts(s, a.request, a.deadline);
    }
  }

  /** The requests put on the wire: those exchanged while connected. */
  function SentRequests(s: Link, actions: seq<Action>): seq<Bytes>
    decreases |actions|
  {
    if actions == [] then []
    else
      var rest := SentRequests(Act(s, actions[0]), actions[1..]);
      if actions[0].DoExchange? && s.connected then [actions[0].request] + rest else rest
  }

  function WithoutClears(actions: seq<Action>): seq<Action> {
    if actions == [] then []
    else if actions[0].DoClearTrace? then WithoutClears(actions[1..])
    else [actions[0]] + WithoutClears(actions[1..])
  }

  /** Two records of one exchange, numbered from n. */
  predicate IsExchange(a: TraceRecord, b: TraceRecord, request: Bytes, n: nat) {
    && a == TraceRecord(n, ClientToServer, Sent, request)
    && b.sequence == n + 1 && b.direction == ServerToClient && b.outcome != Sent
  }

  /** The trace is that of numbered exchanges: odd numbers are requests, even numbers what came of them. */
  predicate Numbered(trace: seq<TraceRecord>, requests: seq<Bytes>, first: nat) {
    |trace| == 2 * |requests| &&
    forall k :: 0 <= k < |requests| ==> IsExchange(trace[2 * k], trace[2 * k + 1], requests[k], first + 2 * k)
  }

  lemma NumberedEmpty(first: nat)
    ensures Numbered([], [], first)
  {
  }

  lemma NumberedCons(a: TraceRecord, b: TraceRecord, trace: seq<TraceRecord>, request: Bytes,
                     requests: seq<Bytes>, first: nat)
    requires IsExchange(a, b, request, first) && Numbered(trace, requests, first + 2)
    ensures Numbered([a, b] + trace, [request] + requests, first)
  {
    hide IsExchange;
    var all, allRequests := [a, b] + trace, [request] + requests;
    forall k | 0 <= k < |allRequests|
      ensures IsExchange(all[2 * k], all[2 * k + 1], allRequests[k], first + 2 * k)
    {
      if k > 0 {
        assert all[2 * k] == trace[2 * (k - 1)] && all[2 * k + 1] == trace[2 * (k - 1) + 1];
        assert IsExchange(trace[2 * (k - 1)], trace[2 * (k - 1) + 1], requests[k - 1], first + 2 + 2 * (k - 1));
      }
    }
  }

  lemma ExchangeThenRun(s: Link, request: Bytes, deadline: int, after: seq<TraceRecord>, requests: seq<Bytes>)
    requires s.connected
    requires var t := Exchanged(s, request, deadline).0;
             && |t.trace| <= |after| && after[..|t.trace|] == t.trace
             && Numbered(after[|t.trace|..], requests, t.nextSequence)
    ensures |s.trace| <= |after| && after[..|s.trace|] == s.trace
    ensures Numbered(after[|s.trace|..], [request] + requests, s.nextSequence)
  {
    hide Exchanged, Numbered;
    ExchangeFacts(s, request, deadline);
    var t := Exchanged(s, request, deadline).0;
    var n := |s.trace|;
    PairThenRest(s.trace, t.trace, after);
    NumberedCons(t.trace[n], t.trace[n + 1], after[n + 2..], request, requests, s.nextSequence);
  }

  /** Without clearing, a run appends the numbered exchanges of the requests it puts on the wire. */
  lemma {:induction false} RunAppendsExchanges(s: Link, actions: seq<Action>)
    requires forall a :: a in actions ==> !a.DoClearTrace?
    ensures var after := ActAll(s, actions);
            && |s.trace| <= |after.trace|
            && after.trace[..|s.trace|] == s.trace
            && Numbered(after.trace[|s.trace|..], SentRequests(s, actions), s.nextSequence)
            && after.nextSequence == s.nextSequence + 2 * |SentRequests(s, actions)|
    decreases |actions|
  {
    hide Exchanged, Numbered;
    if actions == [] {
      NumberedEmpty(s.nextSequence);
      assert s.trace[|s.trace|..] == [];
    } else {
      var t := Act(s, actions[0]);
      RunAppendsExchanges(t, actions[1..]);
      if actions[0].DoExchange? {
        var request, deadline := actions[0].request, actions[0].deadline;
        ExchangeFacts(s, request, deadline);
        if s.connected {
          ExchangeThenRun(s, request, deadline, ActAll(s, actions).trace, SentRequests(t, actions[1..]));
        }
      }
    }
  }

  lemma PairThenRest<T>(a: seq<T>, b: seq<T>, c: seq<T>)
    requires |b| == |a| + 2 <= |c| && b[..|a|] == a && c[..|b|] == b
    ensures c[..|a|] == a && c[|a|..] == [b[|a|], b[|a| + 1]] + c[|b|..]
  {
    var n := |a|;
    assert c[..n] == c[..n + 2][..n];
    assert c[n] == c[..n + 2][n] && c[n + 1] == c[..n + 2][n + 1];
  }

  /** The same state, but perhaps with an earlier part of the trace missing. */
  predicate SameButCleared(s: Link, t: Link) {
    s == t.(trace := s.trace) && |s.trace| <= |t.trace| && s.trace == t.trace[|t.trace| - |s.trace|..]
  }

  lemma ExchangeSameButCleared(s: Link, t: Link, request: Bytes, deadline: int)
    requires SameButCleared(s, t)
    ensures SameButCleared(Exchanged(s, request, deadline).0, Exchanged(t, request, deadline).0)
    ensures Exchanged(s, request, deadline).1 == Exchanged(t, request, deadline).1
  {
    hide Serve, Distort, Recorded, SameButCleared;
    CommonFields(s, t);
    if s.connected {
      RecordBoth(s, t, ClientToServer, Sent, request);
      var s1, t1 := Recorded(s, ClientToServer, Sent, request), Recorded(t, ClientToServer, Sent, request);
      CommonFields(s1, t1);
      if deadline <= 0 {
        RecordBoth(s1, t1, ServerToClient, DeadlineExpired, []);
      } else {
        var s2, t2, fault := DropFault(s1), DropFault(t1), NextFault(s1);
        var (memory, handled) := Serve(s1.policy, s1.memory, request);
        ChangeBoth(s1, t1, s1.connected, s1.memory, s2.faults);
        ChangeBoth(s1, t1, false, s1.memory, s2.faults);
        ChangeBoth(s1, t1, s1.connected, memory, s2.faults);
        RecordBoth(s2, t2, ServerToClient, TimedOut, []);
        RecordBoth(s2.(connected := false), t2.(connected := false), ServerToClient, LinkLost, []);
        RecordBoth(s2.(memory := memory), t2.(memory := memory), ServerToClient, EventOutcome(handled.event),
            Distort(fault, handled.response));
      }
    }
  }

  lemma CommonFields(s: Link, t: Link)
    requires SameButCleared(s, t)
    ensures s.policy == t.policy && s.memory == t.memory && s.connected == t.connected && s.faults == t.faults
  {
  }

  lemma ChangeBoth(s: Link, t: Link, connected: bool, memory: Contents, faults: seq<Fault>)
    requires SameButCleared(s, t)
    ensures SameButCleared(s.(connected := connected, memory := memory, faults := faults),
                           t.(connected := connected, memory := memory, faults := faults))
  {
  }

  lemma RecordBoth(s: Link, t: Link, direction: Direction, outcome: Outcome, bytes: Bytes)
    requires SameButCleared(s, t)
    ensures SameButCleared(Recorded(s, direction, outcome, bytes), Recorded(t, direction, outcome, bytes))
  {
  }

  /** Clearing forgets records and nothing else: the numbering goes on as if it had not happened. */
  lemma {:induction false} ClearingKeepsNumbering(s: Link, t: Link, actions: seq<Action>)
    requires SameButCleared(s, t)
    ensures SameButCleared(ActAll(s, actions), ActAll(t, WithoutClears(actions)))
    ensures forall a :: a in WithoutClears(actions) ==> !a.DoClearTrace?
    decreases |actions|
  {
    hide Exchanged;
    if actions != [] {
      var s' := Act(s, actions[0]);
      if actions[0].DoClearTrace? {
        ClearingKeepsNumbering(s', t, actions[1..]);
      } else {
        var t' := Act(t, actions[0]);
        if actions[0].DoExchange? {
          ExchangeSameButCleared(s, t, actions[0].request, actions[0].deadline);
        }
        ClearingKeepsNumbering(s', t', actions[1..]);
        assert WithoutClears(actions)[1..] == WithoutClears(actions[1..]);
      }
    }
  }

  /**
   Over the whole life of a transport the records are numbered 1, 2, 3, ...: the trace is the end of
   the complete history, in which the odd numbers are the requests sent, in order and byte for byte.
   */
  lemma TraceNumbering(policy: Policy, memory: Contents, actions: seq<Action>)
    ensures var s := ActAll(FreshLink(policy, memory), actions);
            var t := ActAll(FreshLink(policy, memory), WithoutClears(actions));
            && SameButCleared(s, t)
            && Numbered(t.trace, SentRequests(FreshLink(policy, memory), WithoutClears(actions)), 1)
            && s.nextSequence == 1 + |t.trace|
  {
    hide ActAll, Numbered, SentRequests;
    var initial := FreshLink(policy, memory);
    ClearingKeepsNumbering(initial, initial, actions);
    RunAppendsExchanges(initial, WithoutClears(actions));
    var t := ActAll(initial, WithoutClears(actions));
    assert t.trace[|initial.trace|..] == t.trace;
    NumberedLength(t.trace, SentRequests(initial, WithoutClears(actions)), 1);
  }

  lemma NumberedLength(trace: seq<TraceRecord>, requests: seq<Bytes>, first: nat)
    requires Numbered(trace, requests, first)
    ensures |trace| == 2 * |requests|
  {
  }

  // ---------- Replaying a trace ----------

  predicate NeverHandled(outcome: Outcome) {
    outcome == TimedOut || outcome == LinkLost || outcome == DeadlineExpired
  }

  /** What one pair of records contributes. */
  function PairWrites(a: TraceRecord, b: TraceRecord): seq<StoredWrite> {
    if b.outcome == Handled(WriteOk) && Decode(a.bytes).Decoded? then
      var frame := Decode(a.bytes).frame;
      [StoredWrite(Value32(frame.address), frame.payload)]
    else []
  }

  function PairRequests(a: TraceRecord, b: TraceRecord): seq<Bytes> {
    if NeverHandled(b.outcome) then [] else [a.bytes]
  }

  /** The payloads of exactly those requests whose following record says write_ok. */
  function WritesOf(trace: seq<TraceRecord>): seq<StoredWrite>
    decreases |trace|
  {
    if |trace| < 2 then [] else PairWrites(trace[0], trace[1]) + WritesOf(trace[2..])
  }

  /** The requests the server saw. */
  function HandledRequests(trace: seq<TraceRecord>): seq<Bytes>
    decreases |trace|
  {
    if |trace| < 2 then [] else PairRequests(trace[0], trace[1]) + HandledRequests(trace[2..])
  }

  predicate Fits(w: StoredWrite) {
    w.address + |w.data| <= CAPACITY
  }

  function OverlayAll(m: Contents, writes: seq<StoredWrite>): Contents
    decreases |writes|
  {
    if writes == [] then m
    else
      var w := writes[0];
      OverlayAll(if Fits(w) then Overlay(m, w.address, w.data) else m, writes[1..])
  }

  /** A write_ok outcome follows a request that decodes to a write inside the map. */
  predicate RealPair(a: TraceRecord, b: TraceRecord) {
    b.outcome == Handled(WriteOk) ==>
      Decode(a.bytes).Decoded? &&
      var frame := Decode(a.bytes).frame;
      frame.opcode == WRITE_REQUEST && Value32(frame.address) + |frame.payload| <= CAPACITY
  }

  /** No write_ok record of the trace is passed over by WritesOf, and none of its writes by OverlayAll. */
  predicate AllReal(trace: seq<TraceRecord>) {
    && (forall k :: 0 <= k < |trace| / 2 ==> RealPair(trace[2 * k], trace[2 * k + 1]))
    && (forall w :: w in WritesOf(trace) ==> Fits(w))
  }

  /** Both ways of rebuilding the memory from the trace give the memory. */
  predicate Replays(start: Contents, s: Link) {
    && |s.trace| % 2 == 0
    && AllReal(s.trace)
    && s.memory == OverlayAll(start, WritesOf(s.trace))
    && s.memory == Run(s.policy, start, HandledRequests(s.trace))
  }

  lemma OnePair(a: TraceRecord, b: TraceRecord)
    ensures WritesOf([a, b]) == PairWrites(a, b) && HandledRequests([a, b]) == PairRequests(a, b)
  {
    hide PairWrites, PairRequests;
    assert [a, b][2..] == [];
  }

  lemma Associate<T>(x: seq<T>, y: seq<T>, z: seq<T>)
    ensures (x + y) + z == x + (y + z)
  {
  }

  lemma AppendPair<T>(a: seq<T>, c: seq<T>)
    requires |c| == |a| + 2 && c[..|a|] == a
    ensures c == a + [c[|a|], c[|a| + 1]]
  {
  }

  lemma {:induction false} WritesOfAppended(trace: seq<TraceRecord>, a: TraceRecord, b: TraceRecord)
    requires |trace| % 2 == 0
    ensures WritesOf(trace + [a, b]) == WritesOf(trace) + WritesOf([a, b])
    decreases |trace|
  {
    hide PairWrites;
    var all := trace + [a, b];
    if trace == [] {
      assert all == [a, b];
    } else {
      assert all[2..] == trace[2..] + [a, b];
      WritesOfAppended(trace[2..], a, b);
      Associate(PairWrites(trace[0], trace[1]), WritesOf(trace[2..]), WritesOf([a, b]));
    }
  }

  lemma AllRealAppended(trace: seq<TraceRecord>, a: TraceRecord, b: TraceRecord)
    requires |trace| % 2 == 0 && AllReal(trace) && RealPair(a, b)
    ensures AllReal(trace + [a, b])
  {
    hide RealPair, WritesOf;
    var all := trace + [a, b];
    forall k | 0 <= k < |all| / 2 ensures RealPair(all[2 * k], all[2 * k + 1]) {
      if k < |trace| / 2 {
        assert all[2 * k] == trace[2 * k] && all[2 * k + 1] == trace[2 * k + 1];
      }
    }
    WritesOfAppended(trace, a, b);
    OnePair(a, b);
    RealPairFits(a, b);
  }

  lemma RealPairFits(a: TraceRecord, b: TraceRecord)
    requires RealPair(a, b)
    ensures forall w :: w in PairWrites(a, b) ==> Fits(w)
  {
    hide Decode, Value32;
  }

  lemma {:induction false} HandledRequestsAppended(trace: seq<TraceRecord>, a: TraceRecord, b: TraceRecord)
    requires |trace| % 2 == 0
    ensures HandledRequests(trace + [a, b]) == HandledRequests(trace) + HandledRequests([a, b])
    decreases |trace|
  {
    hide PairRequests;
    var all := trace + [a, b];
    if trace == [] {
      assert all == [a, b];
    } else {
      assert all[2..] == trace[2..] + [a, b];
      HandledRequestsAppended(trace[2..], a, b);
      Associate(PairRequests(trace[0], trace[1]), HandledRequests(trace[2..]), HandledRequests([a, b]));
    }
  }

  lemma {:induction false} OverlayAllConcat(m: Contents, v: seq<StoredWrite>, w: seq<StoredWrite>)
    ensures OverlayAll(m, v + w) == OverlayAll(OverlayAll(m, v), w)
    decreases |v|
  {
    hide Overlay;
    if v == [] {
      assert v + w == w;
    } else {
      assert (v + w)[1..] == v[1..] + w;
      var x := v[0];
      OverlayAllConcat(if Fits(x) then Overlay(m, x.address, x.data) else m, v[1..], w);
    }
  }

  lemma {:induction false} RunConcat(policy: Policy, m: Contents, v: seq<Bytes>, w: seq<Bytes>)
    ensures Run(policy, m, v + w) == Run(policy, Run(policy, m, v), w)
    decreases |v|
  {
    hide Serve;
    if v == [] {
      assert v + w == w;
    } else {
      assert (v + w)[1..] == v[1..] + w;
      RunConcat(policy, Serve(policy, m, v[0]).0, v[1..], w);
    }
  }

  /** A served request changes the memory as its outcome tells. */
  lemma ServedOutcome(policy: Policy, m: Contents, request: Bytes)
    ensures var (after, handled) := Serve(policy, m, request);
            EventOutcome(handled.event) == Handled(WriteOk) ==>
              && Decode(request).Decoded?
              && var frame := Decode(request).frame;
                 && frame.opcode == WRITE_REQUEST
                 && Value32(frame.address) + |frame.payload| <= CAPACITY
                 && after == Overlay(m, Value32(frame.address), frame.payload)
    ensures EventOutcome(Serve(policy, m, request).1.event) != Handled(WriteOk) ==> Serve(policy, m, request).0 == m
  {
    hide Decode, Encode, HasValidSemantics, AnswerTo, Value32;
    if Decode(request).Decoded? {
      ResponseIsWire(policy, m, request);
      AnswerFits(policy, m, Decode(request).frame);
    }
  }

  lemma ExchangeReplays(start: Contents, s: Link, request: Bytes, deadline: int)
    requires Replays(start, s)
    ensures Replays(start, Exchanged(s, request, deadline).0)
  {
    hide Serve, Distort, Exchanged, WritesOf, HandledRequests, OverlayAll, Run, AllReal, RealPair;
    ExchangeFacts(s, request, deadline);
    if s.connected {
      var after := Exchanged(s, request, deadline).0;
      var n := |s.trace|;
      var a, b := after.trace[n], after.trace[n + 1];
      AppendPair(s.trace, after.trace);
      ExchangeIsReal(s, request, deadline);
      AllRealAppended(s.trace, a, b);
      WritesOfAppended(s.trace, a, b);
      HandledRequestsAppended(s.trace, a, b);
      OverlayAllConcat(start, WritesOf(s.trace), WritesOf([a, b]));
      RunConcat(s.policy, start, HandledRequests(s.trace), HandledRequests([a, b]));
      PairReplays(s, request, deadline);
    }
  }

  lemma ExchangeIsReal(s: Link, request: Bytes, deadline: int)
    requires s.connected
    ensures var after := Exchanged(s, request, deadline).0;
            |after.trace| == |s.trace| + 2 && RealPair(after.trace[|s.trace|], after.trace[|s.trace| + 1])
  {
    hide Serve, Distort, Decode, Value32, Overlay;
    ServedOutcome(s.policy, s.memory, request);
  }

  lemma RunOne(policy: Policy, m: Contents, request: Bytes)
    ensures Run(policy, m, [request]) == Serve(policy, m, request).0
  {
    hide Serve;
    assert [request][1..] == [];
  }

  lemma OverlayOne(m: Contents, w: StoredWrite)
    requires Fits(w)
    ensures OverlayAll(m, [w]) == Overlay(m, w.address, w.data)
  {
    hide Overlay;
    assert [w][1..] == [];
  }

  lemma PairReplays(s: Link, request: Bytes, deadline: int)
    requires s.connected
    ensures var after := Exchanged(s, request, deadline).0;
            && |after.trace| == |s.trace| + 2
            && var pair := [after.trace[|s.trace|], after.trace[|s.trace| + 1]];
               && after.memory == OverlayAll(s.memory, WritesOf(pair))
               && after.memory == Run(s.policy, s.memory, HandledRequests(pair))
  {
    hide Serve, Distort, Decode, Value32, Overlay, OverlayAll, Run, WritesOf, HandledRequests;
    var after := Exchanged(s, request, deadline).0;
    var a, b := after.trace[|s.trace|], after.trace[|s.trace| + 1];
    OnePair(a, b);
    NothingToDo(s.policy, s.memory);
    ServedOutcome(s.policy, s.memory, request);
    RunOne(s.policy, s.memory, request);
    if b.outcome == Handled(WriteOk) {
      var frame := Decode(request).frame;
      OverlayOne(s.memory, StoredWrite(Value32(frame.address), frame.payload));
    }
  }

  lemma NothingToDo(policy: Policy, m: Contents)
    ensures OverlayAll(m, []) == m && Run(policy, m, []) == m
  {
  }

  /** The trace of a run that never cleared it is enough to rebuild the memory, in two ways. */
  lemma {:induction false} TraceReplay(start: Contents, s: Link, actions: seq<Action>)
    requires Replays(start, s)
    requires forall a :: a in actions ==> !a.DoClearTrace?
    ensures Replays(start, ActAll(s, actions))
    decreases |actions|
  {
    hide Exchanged, Replays;
    if actions != [] {
      var t := Act(s, actions[0]);
      if actions[0].DoExchange? {
        ExchangeReplays(start, s, actions[0].request, actions[0].deadline);
      } else {
        SameTraceReplays(start, s, t);
      }
      TraceReplay(start, t, actions[1..]);
    }
  }

  lemma SameTraceReplays(start: Contents, s: Link, t: Link)
    requires Replays(start, s) && t.trace == s.trace && t.memory == s.memory && t.policy == s.policy
    ensures Replays(start, t)
  {
  }

  lemma FreshReplays(policy: Policy, memory: Contents)
    ensures Replays(memory, FreshLink(policy, memory))
  {
  }
}
