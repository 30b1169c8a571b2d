/**
 Whole runs of client, loopback transport and server, read off the packet trace. The trace may be cleared
 at any time: that changes nothing but the trace, so what a run did is stated on its full history, which is
 the trace of the same run without the clearing.
 */
module ClientRuns {
  import opened Words
  import opened Frames
  import opened Codec
  import opened Memory
  import opened Server
  import opened Transport
  import opened Client
  import opened AnyTransport
  import opened EndToEnd

  // ---------- Deadlines ----------

  predicate NoDeadlineExpired(trace: seq<TraceRecord>) {
    forall i :: 0 <= i < |trace| ==> trace[i].outcome != DeadlineExpired
  }

  lemma ExchangeMeetsDeadline(s: Link, request: Bytes, deadline: int)
    requires NoDeadlineExpired(s.trace) && deadline > 0
    ensures NoDeadlineExpired(Exchanged(s, request, deadline).0.trace)
  {
    hide Exchanged;
    ExchangeFacts(s, request, deadline);
    var after := Exchanged(s, request, deadline).0;
    if s.connected {
      assert forall i :: 0 <= i < |s.trace| ==> after.trace[i] == after.trace[..|s.trace|][i];
    }
  }

  lemma DeadlinesKept()
    ensures Kept(LOOPBACK, (s: Link) => NoDeadlineExpired(s.trace), (request: Bytes) => true)
  {
    hide Exchanged, NoDeadlineExpired;
    forall s: Link, request: Bytes, deadline: int | NoDeadlineExpired(s.trace) && deadline > 0
      ensures NoDeadlineExpired(LOOPBACK.exchange(s, request, deadline).0.trace)
    {
      ExchangeMeetsDeadline(s, request, deadline);
    }
  }

  lemma StepMeetsDeadlines(sys: System, command: Command)
    requires NoDeadlineExpired(sys.link.trace)
    ensures NoDeadlineExpired(Step(sys, command).0.link.trace)
  {
    hide ReadOperation, WriteOperation, Kept;
    var inv, sent := (s: Link) => NoDeadlineExpired(s.trace), (request: Bytes) => true;
    DeadlinesKept();
    match command
    case Read(address, length, deadline) =>
      ReadKeeps(LOOPBACK, inv, sent, sys.client, sys.link, address, length, deadline);
    case Write(address, data, deadline) =>
      WriteKeeps(LOOPBACK, inv, sent, sys.client, sys.link, address, data, deadline);
    case _ =>
  }

  /** The client never lets the transport see a deadline that has expired, whatever it is asked to do. */
  lemma {:induction false} NoDeadlineExpires(sys: System, commands: seq<Command>)
    requires NoDeadlineExpired(sys.link.trace)
    ensures NoDeadlineExpired(Steps(sys, commands).0.link.trace)
    decreases |commands|
  {
    hide Step, NoDeadlineExpired;
    if commands != [] {
      StepMeetsDeadlines(sys, commands[0]);
      NoDeadlineExpires(Step(sys, commands[0]).0, commands[1..]);
    }
  }

  // ---------- Clearing the trace ----------

  function WithoutClearing(commands: seq<Command>): seq<Command> {
    if commands == [] then []
    else if commands[0].ClearTrace? then WithoutClearing(commands[1..])
    else [commands[0]] + WithoutClearing(commands[1..])
  }

  /** The reports of the commands that do not clear the trace. */
  function ReportsKept(commands: seq<Command>, results: seq<Option<OperationResult>>): seq<Option<OperationResult>>
    requires |commands| == |results|
    decreases |commands|
  {
    if commands == [] then []
    else if commands[0].ClearTrace? then ReportsKept(commands[1..], results[1..])
    else [results[0]] + ReportsKept(commands[1..], results[1..])
  }

  lemma ConnectSameButCleared(s: Link, t: Link, connected: bool)
    requires SameButCleared(s, t)
    ensures SameButCleared(s.(connected := connected), t.(connected := connected)) && s.connected == t.connected
  {
  }

  lemma ClearedLinksAlike()
    ensures Alike(LOOPBACK, LOOPBACK, (s: Link, t: Link) => SameButCleared(s, t))
  {
    hide Exchanged, SameButCleared;
    forall s: Link, t: Link | SameButCleared(s, t)
      ensures LOOPBACK.connected(s) == LOOPBACK.connected(t)
      ensures SameButCleared(LOOPBACK.connect(s).0, LOOPBACK.connect(t).0)
      ensures SameButCleared(LOOPBACK.close(s), LOOPBACK.close(t))
    {
      ConnectSameButCleared(s, t, true);
      ConnectSameButCleared(s, t, false);
    }
    forall s: Link, t: Link, request: Bytes, deadline: int | SameButCleared(s, t)
      ensures LOOPBACK.exchange(s, request, deadline).1 == LOOPBACK.exchange(t, request, deadline).1
      ensures SameButCleared(LOOPBACK.exchange(s, request, deadline).0, LOOPBACK.exchange(t, request, deadline).0)
    {
      ExchangeSameButCleared(s, t, request, deadline);
    }
  }

  lemma StepSameButCleared(sys: System, t: Link, command: Command)
    requires SameButCleared(sys.link, t)
    ensures var (next, result) := Step(sys, command);
            if command.ClearTrace? then
              result == None && next.client == sys.client && SameButCleared(next.link, t)
            else
              var (other, same) := Step(System(sys.client, t), command);
              result == same && next.client == other.client && SameButCleared(next.link, other.link)
  {
    hide ReadOperation, WriteOperation, Alike;
    var rel := (s: Link, t: Link) => SameButCleared(s, t);
    ClearedLinksAlike();
    match command
    case Read(address, length, deadline) =>
      ReadAlike(LOOPBACK, LOOPBACK, rel, sys.client, sys.link, t, address, length, deadline);
    case Write(address, data, deadline) =>
      WriteAlike(LOOPBACK, LOOPBACK, rel, sys.client, sys.link, t, address, data, deadline);
    case _ =>
  }

  /**
   Clearing the trace forgets records and nothing else: the same run without it leads to the same client,
   the same reports and the same transport and server, with the full history as its trace.
   */
  lemma {:induction false} ClearingChangesNothing(sys: System, history: Link, commands: seq<Command>)
    requires SameButCleared(sys.link, history)
    ensures var (last, results) := Steps(sys, commands);
            var (full, reports) := Steps(System(sys.client, history), WithoutClearing(commands));
            && |results| == |commands|
            && last.client == full.client
            && SameButCleared(last.link, full.link)
            && reports == ReportsKept(commands, results)
            && forall c :: c in WithoutClearing(commands) ==> !c.ClearTrace?
    decreases |commands|
  {
    hide Step, SameButCleared;
    if commands != [] {
      var (next, r) := Step(sys, commands[0]);
      var rs := Steps(next, commands[1..]).1;
      assert ([r] + rs)[1..] == rs;
      StepSameButCleared(sys, history, commands[0]);
      if commands[0].ClearTrace? {
        ClearingChangesNothing(next, history, commands[1..]);
      } else {
        var other := Step(System(sys.client, history), commands[0]).0;
        ClearingChangesNothing(next, other.link, commands[1..]);
        assert WithoutClearing(commands)[1..] == WithoutClearing(commands[1..]);
      }
    }
  }

  // ---------- The trace of a client's run ----------

  predicate Clean(actions: seq<Action>) {
    forall a :: a in actions ==> !a.DoClearTrace? && (a.DoExchange? ==> a.deadline > 0)
  }

  /** The link is where some actions of the transport, all with positive deadlines and no clearing, lead. */
  ghost predicate Reached(start: Link, s: Link) {
    exists actions :: Clean(actions) && ActAll(start, actions) == s
  }

  lemma {:induction false} ActAllSnoc(s: Link, actions: seq<Action>, a: Action)
    ensures ActAll(s, actions + [a]) == Act(ActAll(s, actions), a)
    decreases |actions|
  {
    hide Act;
    if actions == [] {
      assert actions + [a] == [a] && [a][1..] == [];
    } else {
      assert (actions + [a])[1..] == actions[1..] + [a];
      ActAllSnoc(Act(s, actions[0]), actions[1..], a);
    }
  }

  lemma ReachedNext(start: Link, s: Link, a: Action)
    requires Reached(start, s) && Clean([a])
    ensures Reached(start, Act(s, a))
  {
    hide ActAll, Act;
    var actions :| Clean(actions) && ActAll(start, actions) == s;
    ActAllSnoc(start, actions, a);
    assert a in [a];
    assert Clean(actions + [a]);
  }

  lemma ReachedKept(start: Link)
    ensures Kept(LOOPBACK, (s: Link) => Reached(start, s), (request: Bytes) => true)
  {
    hide Reached, Exchanged;
    forall s: Link | Reached(start, s)
      ensures Reached(start, LOOPBACK.connect(s).0) && Reached(start, LOOPBACK.close(s))
    {
      ReachedNext(start, s, DoConnect);
      ReachedNext(start, s, DoClose);
    }
    forall s: Link, request: Bytes, deadline: int | Reached(start, s) && deadline > 0
      ensures Reached(start, LOOPBACK.exchange(s, request, deadline).0)
    {
      ReachedNext(start, s, DoExchange(request, deadline));
    }
  }

  lemma StepReached(start: Link, sys: System, command: Command)
    requires Reached(start, sys.link) && !command.ClearTrace?
    ensures Reached(start, Step(sys, command).0.link)
  {
    hide Reached, ReadOperation, WriteOperation, Act, Kept;
    var inv, sent := (s: Link) => Reached(start, s), (request: Bytes) => true;
    ReachedKept(start);
    match command
    case Read(address, length, deadline) =>
      ReadKeeps(LOOPBACK, inv, sent, sys.client, sys.link, address, length, deadline);
    case Write(address, data, deadline) =>
      WriteKeeps(LOOPBACK, inv, sent, sys.client, sys.link, address, data, deadline);
    case PushFault(fault) =>
      ReachedNext(start, sys.link, DoPushFault(fault));
    case Connect =>
      ReachedNext(start, sys.link, DoConnect);
    case Close =>
      ReachedNext(start, sys.link, DoClose);
  }

  lemma {:induction false} StepsReached(start: Link, sys: System, commands: seq<Command>)
    requires Reached(start, sys.link)
    requires forall c :: c in commands ==> !c.ClearTrace?
    ensures Reached(start, Steps(sys, commands).0.link)
    decreases |commands|
  {
    hide Reached, Step;
    if commands != [] {
      StepReached(start, sys, commands[0]);
      StepsReached(start, Step(sys, commands[0]).0, commands[1..]);
    }
  }

  lemma SameTrace(s: Link)
    ensures SameButCleared(s, s)
  {
  }

  /**
   The trace of every run of the client on a fresh transport. Its full history is the trace of some run of
   the transport, numbered from 1, with no expired deadline in it, and it rebuilds the memory, both by
   overlaying the payloads of the acknowledged writes and by handling again the requests that were not
   lost. The trace itself is the end of that history since it was last cleared, and the rest is the same.
   */
  lemma ClientTrace(c: ClientState, policy: Policy, memory: Contents, commands: seq<Command>)
    ensures var start := FreshLink(policy, memory);
            var s := Steps(System(c, start), commands).0.link;
            var full := Steps(System(c, start), WithoutClearing(commands)).0.link;
            && SameButCleared(s, full)
            && Reached(start, full)
            && NoDeadlineExpired(full.trace)
            && Replays(memory, full)
            && full.policy == policy
            && (exists requests :: Numbered(full.trace, requests, 1))
            && s.nextSequence == 1 + |full.trace|
  {
    hide Steps, ActAll, SameButCleared, Replays, Numbered, SentRequests;
    var start := FreshLink(policy, memory);
    assert Reached(start, start) by {
      assert Clean([]) && ActAll(start, []) == start by { NoActions(start); }
    }
    SameTrace(start);
    ClearingChangesNothing(System(c, start), start, commands);
    StepsReached(start, System(c, start), WithoutClearing(commands));
    NoDeadlineExpires(System(c, start), WithoutClearing(commands));
    var s := Steps(System(c, start), commands).0.link;
    var full := Steps(System(c, start), WithoutClearing(commands)).0.link;
    var actions :| Clean(actions) && ActAll(start, actions) == full;
    FreshReplays(policy, memory);
    TraceReplay(memory, start, actions);
    RunAppendsExchanges(start, actions);
    assert full.trace[|start.trace|..] == full.trace;
    NumberedLength(full.trace, SentRequests(start, actions), 1);
    PolicyKept(start, actions);
    SameSequence(s, full);
  }

  lemma SameSequence(s: Link, t: Link)
    requires SameButCleared(s, t)
    ensures s.nextSequence == t.nextSequence
  {
  }

  lemma NoActions(s: Link)
    ensures ActAll(s, []) == s
  {
  }

  lemma {:induction false} PolicyKept(s: Link, actions: seq<Action>)
    ensures ActAll(s, actions).policy == s.policy
    decreases |actions|
  {
    hide Exchanged;
    if actions != [] {
      if actions[0].DoExchange? {
        ExchangeFacts(s, actions[0].request, actions[0].deadline);
      }
      PolicyKept(Act(s, actions[0]), actions[1..]);
    }
  }

  // ---------- Writes are applied at most once ----------

  /** The write commands that the reports say were applied, in order. */
  function AppliedWrites(policy: Policy, commands: seq<Command>,
      results: seq<Option<OperationResult>>): seq<StoredWrite>
    requires |commands| == |results|
    decreases |commands|
  {
    if commands == [] then []
    else AppliedBy(policy, commands[0], results[0]) + AppliedWrites(policy, commands[1..], results[1..])
  }

  function AppliedBy(policy: Policy, command: Command, result: Option<OperationResult>): seq<StoredWrite> {
    if command.Write? && result.Some? && Applied(policy, command.address, |command.data|, result.value.error) then
      [StoredWrite(command.address, command.data)]
    else []
  }

  /** What one exchange adds to the writes of the trace. */
  lemma ExchangeWrites(s: Link, request: Frame, deadline: int)
    requires s.connected && |s.trace| % 2 == 0 && AllReal(s.trace) && Encodable(request) && deadline > 0
    ensures var after, lost := Exchanged(s, Wire(request), deadline).0, s.faults != [] && Lost(s.faults[0]);
            && |after.trace| % 2 == 0 && AllReal(after.trace)
            && WritesOf(after.trace) == WritesOf(s.trace) +
                 if !lost && request.opcode == WRITE_REQUEST &&
                    Admits(s.policy, Value32(request.address), |request.payload|)
                 then [StoredWrite(Value32(request.address), request.payload)] else []
  {
    hide Decode, Encode, Value32, Admits, WritesOf, Serve, Distort, AllReal, RealPair;
    var after := Exchanged(s, Wire(request), deadline).0;
    var n := |s.trace|;
    var a, b := after.trace[n], after.trace[n + 1];
    ExchangeFacts(s, Wire(request), deadline);
    AppendPair(s.trace, after.trace);
    ExchangeIsReal(s, Wire(request), deadline);
    AllRealAppended(s.trace, a, b);
    WritesOfAppended(s.trace, a, b);
    OnePair(a, b);
    DecodeWire(request);
    ServedDetail(s.policy, s.memory, request);
  }

  lemma ServedDetail(policy: Policy, m: Contents, request: Frame)
    requires Encodable(request)
    ensures EventOutcome(Serve(policy, m, Wire(request)).1.event) == Handled(WriteOk) <==>
            request.opcode == WRITE_REQUEST && Admits(policy, Value32(request.address), |request.payload|)
  {
    hide Decode, Encode, HasValidSemantics, AnswerTo, Value32, Admits;
    DecodeWire(request);
    ResponseIsWire(policy, m, Wire(request));
    AnswerFits(policy, m, request);
  }

  predicate TraceWrites(s: Link, writes: seq<StoredWrite>) {
    |s.trace| % 2 == 0 && AllReal(s.trace) && WritesOf(s.trace) == writes
  }

  predicate IsRead(request: Bytes) {
    Decode(request).Decoded? && Decode(request).frame.opcode == READ_REQUEST
  }

  lemma ReadsKeepWrites(writes: seq<StoredWrite>)
    ensures Kept(LOOPBACK, (s: Link) => TraceWrites(s, writes), (request: Bytes) => IsRead(request))
  {
    hide Exchanged, Decode, Encode, WritesOf, AllReal, Admits;
    forall s: Link, request: Bytes, deadline: int | TraceWrites(s, writes) && IsRead(request) && deadline > 0
      ensures TraceWrites(LOOPBACK.exchange(s, request, deadline).0, writes)
    {
      if s.connected {
        WireOfDecoded(request);
        ExchangeWrites(s, Decode(request).frame, deadline);
      } else {
        ExchangeFacts(s, request, deadline);
      }
    }
  }

  lemma ReadAddsNoWrite(sys: System, address: U32, length: nat, deadline: int, writes: seq<StoredWrite>)
    requires TraceWrites(sys.link, writes)
    ensures TraceWrites(ReadOperation(LOOPBACK, sys.client, sys.link, address, length, deadline).1, writes)
  {
    hide Encode, Decode, ReadOperation, TraceWrites, Word32, Word16, Kept;
    ReadsKeepWrites(writes);
    if 0 < length <= MAXIMUM_PAYLOAD_SIZE {
      var request := ReadRequest(sys.client.nextRequestId, address, length);
      ReadRequestEncodable(sys.client.nextRequestId, address, length);
      DecodeWire(request);
    }
    ReadKeeps(LOOPBACK, (s: Link) => TraceWrites(s, writes), (request: Bytes) => IsRead(request), sys.client, sys.link,
              address, length, deadline);
  }

  /** The trace of a valid write is that of its one exchange. */
  lemma WriteTrace(sys: System, address: U32, data: Bytes, deadline: int)
    requires !BadRequest(|data|, deadline)
    ensures Encodable(WriteRequest(sys.client.nextRequestId, address, data))
    ensures var request := WriteRequest(sys.client.nextRequestId, address, data);
            WriteOperation(LOOPBACK, sys.client, sys.link, address, data, deadline).1.trace ==
            Exchanged(Connected(sys.link), Wire(request), deadline).0.trace
  {
    hide Encode, Word32, NextRequestId, Exchanged, ValidateResponse;
    WriteRequestFields(sys.client.nextRequestId, address, data);
    assert sys.link.connected ==> Connected(sys.link) == sys.link;
  }

  lemma WriteAddsOnce(sys: System, address: U32, data: Bytes, deadline: int, writes: seq<StoredWrite>)
    requires TraceWrites(sys.link, writes)
    ensures var (_, s, r) := WriteOperation(LOOPBACK, sys.client, sys.link, address, data, deadline);
            TraceWrites(s, writes + AppliedBy(sys.link.policy, Write(address, data, deadline), Some(r)))
  {
    hide Encode, Word32, NextRequestId, Admits, Value32, WritesOf, AllReal;
    if BadRequest(|data|, deadline) {
      assert writes + [] == writes;
    } else {
      hide WriteOperation, Exchanged, ValidateResponse, Applied, WriteAnswer, Reported;
      var request := WriteRequest(sys.client.nextRequestId, address, data);
      var t := Connected(sys.link);
      WriteRequestFields(sys.client.nextRequestId, address, data);
      WriteTrace(sys, address, data, deadline);
      ExchangeWrites(t, request, deadline);
      WriteOutcome(sys, address, data, deadline);
      ReportedWrite(sys.link.policy, sys.link.memory, address, data, deadline, FaultAt(sys.link.faults, 0),
                    Word32(sys.client.nextRequestId), 1);
      LocalNotApplied(sys.link.policy, address, |data|);
    }
  }

  lemma LocalNotApplied(policy: Policy, address: U32, length: nat)
    ensures !Applied(policy, address, length, TimeoutError) && !Applied(policy, address, length, DisconnectedError)
  {
  }

  lemma StepWrites(sys: System, command: Command, writes: seq<StoredWrite>)
    requires TraceWrites(sys.link, writes) && !command.ClearTrace?
    ensures var (next, result) := Step(sys, command);
            TraceWrites(next.link, writes + AppliedBy(sys.link.policy, command, result))
  {
    hide ReadOperation, WriteOperation, Applied, WritesOf, AllReal;
    assert writes + [] == writes;
    match command
    case Read(address, length, deadline) =>
      ReadAddsNoWrite(sys, address, length, deadline, writes);
    case Write(address, data, deadline) =>
      WriteAddsOnce(sys, address, data, deadline, writes);
    case _ =>
  }

  lemma {:induction false} StepsLength(sys: System, commands: seq<Command>)
    ensures |Steps(sys, commands).1| == |commands|
    decreases |commands|
  {
    hide Step;
    if commands != [] {
      StepsLength(Step(sys, commands[0]).0, commands[1..]);
    }
  }

  lemma AppliedWritesCons(policy: Policy, commands: seq<Command>, r: Option<OperationResult>,
      rs: seq<Option<OperationResult>>)
    requires |commands| == |rs| + 1
    ensures AppliedWrites(policy, commands, [r] + rs) ==
            AppliedBy(policy, commands[0], r) + AppliedWrites(policy, commands[1..], rs)
  {
    hide AppliedBy;
    assert ([r] + rs)[1..] == rs;
  }

  /** The writes of an uncleared run, added to those before it. */
  lemma {:induction false} UnclearedWrites(sys: System, commands: seq<Command>, writes: seq<StoredWrite>)
    requires sys.client.maximumReadAttempts >= 1
    requires TraceWrites(sys.link, writes)
    requires forall command :: command in commands ==> !command.ClearTrace?
    ensures var (last, results) := Steps(sys, commands);
            && |results| == |commands|
            && TraceWrites(last.link, writes + AppliedWrites(sys.link.policy, commands, results))
    decreases |commands|
  {
    hide Step, AppliedBy, TraceWrites, AppliedWrites;
    StepsLength(sys, commands);
    if commands == [] {
      NothingApplied(sys.link.policy);
      assert writes + [] == writes;
    } else {
      var (next, r) := Step(sys, commands[0]);
      var rs := Steps(next, commands[1..]).1;
      StepWrites(sys, commands[0], writes);
      StepRefines(sys, commands[0]);
      StepsLength(next, commands[1..]);
      UnclearedWrites(next, commands[1..], writes + AppliedBy(sys.link.policy, commands[0], r));
      AppliedWritesCons(sys.link.policy, commands, r, rs);
      Associate(writes, AppliedBy(sys.link.policy, commands[0], r), AppliedWrites(sys.link.policy, commands[1..], rs));
    }
  }

  lemma NothingApplied(policy: Policy)
    ensures AppliedWrites(policy, [], []) == []
  {
  }

  /** Clearing the trace applies no write. */
  lemma {:induction false} AppliedWithoutClearing(policy: Policy, commands: seq<Command>,
                                                  results: seq<Option<OperationResult>>)
    requires |commands| == |results|
    ensures var kept, reports := WithoutClearing(commands), ReportsKept(commands, results);
            && |kept| == |reports|
            && AppliedWrites(policy, kept, reports) == AppliedWrites(policy, commands, results)
    decreases |commands|
  {
    hide Applied;
    if commands != [] {
      var kept, reports := WithoutClearing(commands[1..]), ReportsKept(commands[1..], results[1..]);
      AppliedWithoutClearing(policy, commands[1..], results[1..]);
      if !commands[0].ClearTrace? {
        assert WithoutClearing(commands)[1..] == kept;
        AppliedWritesCons(policy, [commands[0]] + kept, results[0], reports);
      }
    }
  }

  /**
   At most once, and in order: the writes that the server performed, read off the full history of a whole
   run, are exactly the write commands that the reports say were applied, each once. The history is that
   of the same run without clearing, from a link that has kept all the records before the run as well.
   */
  lemma AtMostOnce(sys: System, history: Link, commands: seq<Command>, writes: seq<StoredWrite>)
    requires sys.client.maximumReadAttempts >= 1
    requires SameButCleared(sys.link, history) && TraceWrites(history, writes)
    ensures var (last, results) := Steps(sys, commands);
            var full := Steps(System(sys.client, history), WithoutClearing(commands)).0.link;
            && |results| == |commands|
            && SameButCleared(last.link, full)
            && AllReal(full.trace)
            && WritesOf(full.trace) == writes + AppliedWrites(sys.link.policy, commands, results)
  {
    hide Steps, AppliedWrites, ReportsKept, WithoutClearing;
    ClearingChangesNothing(sys, history, commands);
    UnclearedWrites(System(sys.client, history), WithoutClearing(commands), writes);
    AppliedWithoutClearing(sys.link.policy, commands, Steps(sys, commands).1);
  }
}
