/**
 What the client promises over any transport at all: its metrics balance, its request IDs do not repeat, bad
 arguments leave the transport alone, the retry loop's last return is never reached, and transports that
 answer alike are not told apart.
 */
module AnyTransport {
  import opened Words
  import opened Frames
  import opened Codec
  import opened Transport
  import opened Client

  // ---------- Requests always encode ----------

  lemma ReadRequestEncodable(id: U32, address: U32, length: nat)
    requires length <= MAXIMUM_PAYLOAD_SIZE
    ensures Encodable(ReadRequest(id, address, length))
  {
    hide Covered, Word16, Word32, High16, Low16;
  }

  lemma WriteRequestEncodable(id: U32, address: U32, data: Bytes)
    requires data != [] && |data| <= MAXIMUM_PAYLOAD_SIZE
    ensures Encodable(WriteRequest(id, address, data))
  {
    hide Covered, Word32;
  }

  // ---------- Metrics ----------

  function Bit(b: bool): nat {
    if b then 1 else 0
  }

  function Min(a: nat, b: nat): nat {
    if a < b then a else b
  }

  predicate NeverExchanged(e: ClientError) {
    e == InvalidArgument || e == EncodingFailed || e == ConnectFailed
  }

  predicate IsProtocolError(e: ClientError) {
    e == MalformedResponse || e == CorrelationMismatch || e == UnexpectedResponse
  }

  /** How one operation with the given result moves the counters. */
  predicate Booked(before: Metrics, after: Metrics, e: ClientError, operations: nat) {
    && after.operations == before.operations + operations
    && after.transportAttempts + before.retries + Bit(NeverExchanged(e)) == before.transportAttempts + after.retries + 1
    && after.protocolErrors == before.protocolErrors + Bit(IsProtocolError(e))
    && before.retries <= after.retries
    && before.timeouts + Bit(e == TimeoutError) <= after.timeouts
    && after.timeouts + before.retries <= before.timeouts + after.retries + Bit(e == TimeoutError)
  }

  lemma ValidateBooks(c: ClientState, request: Frame, response: Bytes, opcode: bv8, length: nat, attempts: nat)
    ensures var (c', r) := ValidateResponse(c, request, response, opcode, length, attempts);
            && !NeverExchanged(r.error) && r.error != TimeoutError && r.detail != AttemptsExhausted
            && r.requestId == request.requestId && r.attempts == attempts
            && c' == if IsProtocolError(r.error) then CountProtocolError(c) else c
  {
    hide Decode;
  }

  /** A read from one of its attempts on; the return after the loop is not reached. */
  lemma {:induction false} AttemptsBook<T>(io: Interface<T>, c: ClientState, t: T, request: Frame, encoded: Bytes,
                                           length: nat, deadline: int, attempt: nat)
    requires 1 <= attempt <= c.maximumReadAttempts
    ensures var (c', _, r) := Attempts(io, c, t, request, encoded, length, deadline, attempt);
            && Booked(c.metrics, c'.metrics, r.error, 0)
            && c'.nextRequestId == c.nextRequestId && c'.maximumReadAttempts == c.maximumReadAttempts
            && r.requestId == request.requestId
            && r.detail != AttemptsExhausted && r.error != InvalidArgument && r.error != EncodingFailed
            && attempt <= r.attempts <= c.maximumReadAttempts
            && c'.metrics.retries == c.metrics.retries + (r.attempts - attempt)
    decreases c.maximumReadAttempts - attempt
  {
    hide ValidateResponse;
    var (c1, t1, ok) := EnsureConnected(io, c, t);
    if ok {
      var (t2, reply) := io.exchange(t1, encoded, deadline);
      match reply {
        case Delivered(bytes) =>
          ValidateBooks(CountAttempt(c1), request, bytes, DATA_RESPONSE, length, attempt);
        case Failed(error) =>
          if attempt < c.maximumReadAttempts {
            AttemptsBook(io, CountRetry(CountTimeout(CountAttempt(c1), error)), io.close(t2), request, encoded, length,
                         deadline, attempt + 1);
          }
      }
    }
  }

  /** An operation that refuses its arguments counts itself, uses up an ID, and does nothing else. */
  predicate RefusedOutright<T(==)>(c: ClientState, c': ClientState, t: T, t': T, r: OperationResult) {
    && t' == t
    && c' == c.(metrics := c.metrics.(operations := c.metrics.operations + 1),
                nextRequestId := NextRequestId(c.nextRequestId))
    && r == OperationResult(InvalidArgument, 0, Word32(c.nextRequestId), 0, [], BadArguments)
  }

  lemma ReadBooks<T>(io: Interface<T>, c: ClientState, t: T, address: U32, length: nat, deadline: int)
    requires c.maximumReadAttempts >= 1
    ensures var (c', t', r) := ReadOperation(io, c, t, address, length, deadline);
            && Booked(c.metrics, c'.metrics, r.error, 1)
            && c'.nextRequestId == NextRequestId(c.nextRequestId) && c'.maximumReadAttempts == c.maximumReadAttempts
            && r.requestId == Word32(c.nextRequestId)
            && r.detail != AttemptsExhausted && r.error != EncodingFailed
            && (r.error == InvalidArgument <==> length == 0 || length > MAXIMUM_PAYLOAD_SIZE || deadline <= 0)
            && (r.error == InvalidArgument ==> RefusedOutright(c, c', t, t', r))
            && r.attempts <= c.maximumReadAttempts
            && c'.metrics.retries == c.metrics.retries + (if r.attempts == 0 then 0 else r.attempts - 1)
  {
    hide Encode, Attempts, Word32, Word16, NextRequestId;
    if 0 < length <= MAXIMUM_PAYLOAD_SIZE && deadline > 0 {
      var request := ReadRequest(c.nextRequestId, address, length);
      ReadRequestEncodable(c.nextRequestId, address, length);
      AttemptsBook(io, Started(c), t, request, Wire(request), length, deadline, 1);
    }
  }

  /** A write never retries, and makes at most one attempt. */
  lemma WriteBooks<T>(io: Interface<T>, c: ClientState, t: T, address: U32, data: Bytes, deadline: int)
    ensures var (c', t', r) := WriteOperation(io, c, t, address, data, deadline);
            && Booked(c.metrics, c'.metrics, r.error, 1)
            && c'.nextRequestId == NextRequestId(c.nextRequestId) && c'.maximumReadAttempts == c.maximumReadAttempts
            && r.requestId == Word32(c.nextRequestId)
            && r.error != EncodingFailed
            && (r.error == InvalidArgument <==> data == [] || |data| > MAXIMUM_PAYLOAD_SIZE || deadline <= 0)
            && (r.error == InvalidArgument ==> RefusedOutright(c, c', t, t', r))
            && r.attempts <= 1
            && c'.metrics.retries == c.metrics.retries
            && c'.metrics.transportAttempts <= c.metrics.transportAttempts + 1
  {
    hide Encode, ValidateResponse, Word32, NextRequestId;
    if data != [] && |data| <= MAXIMUM_PAYLOAD_SIZE && deadline > 0 {
      var request := WriteRequest(c.nextRequestId, address, data);
      WriteRequestEncodable(c.nextRequestId, address, data);
      var (c1, t1, ok) := EnsureConnected(io, Started(c), t);
      if ok {
        var (t2, reply) := io.exchange(t1, Wire(request), deadline);
        if reply.Delivered? {
          ValidateBooks(CountAttempt(c1), request, reply.bytes, WRITE_ACKNOWLEDGEMENT, 0, 1);
        }
      }
    }
  }

  // ---------- Runs ----------

  /** An operation of the client, or anything that happens to the transport in between. */
  datatype Op<!T> =
    | ReadOp(address: U32, length: nat, deadline: int)
    | WriteOp(address: U32, data: Bytes, deadline: int)
    | Outside(change: T -> T)

  function PerformAll<T>(io: Interface<T>, c: ClientState, t: T, ops: seq<Op<T>>)
    : (ClientState, T, seq<OperationResult>)
    decreases |ops|
  {
    if ops == [] then (c, t, [])
    else
      match ops[0]
      case ReadOp(address, length, deadline) =>
        var (c1, t1, r) := ReadOperation(io, c, t, address, length, deadline);
        var (c2, t2, rs) := PerformAll(io, c1, t1, ops[1..]);
        (c2, t2, [r] + rs)
      case WriteOp(address, data, deadline) =>
        var (c1, t1, r) := WriteOperation(io, c, t, address, data, deadline);
        var (c2, t2, rs) := PerformAll(io, c1, t1, ops[1..]);
        (c2, t2, [r] + rs)
      case Outside(change) => PerformAll(io, c, change(t), ops[1..])
  }

  /** How many results carry an error. */
  function Count(results: seq<OperationResult>, e: ClientError): nat {
    if results == [] then 0 else Bit(results[0].error == e) + Count(results[1..], e)
  }

  /** The books of a client after a run that started at before and gave results. */
  predicate Balanced(before: Metrics, after: Metrics, results: seq<OperationResult>) {
    && after.operations == before.operations + |results|
    && |results| ==
       (after.transportAttempts - before.transportAttempts) - (after.retries - before.retries) +
       Count(results, InvalidArgument) + Count(results, EncodingFailed) + Count(results, ConnectFailed)
    && after.protocolErrors - before.protocolErrors ==
       Count(results, MalformedResponse) + Count(results, CorrelationMismatch) + Count(results, UnexpectedResponse)
    && before.timeouts + Count(results, TimeoutError) <= after.timeouts
    && after.timeouts - before.timeouts <= (after.retries - before.retries) + Count(results, TimeoutError)
    && before.retries <= after.retries
    && Count(results, EncodingFailed) == 0
  }

  lemma CountCons(r: OperationResult, rs: seq<OperationResult>, e: ClientError)
    ensures Count([r] + rs, e) == Bit(r.error == e) + Count(rs, e)
  {
    assert ([r] + rs)[1..] == rs;
  }

  lemma BalancedCons(a: Metrics, b: Metrics, c: Metrics, r: OperationResult, rs: seq<OperationResult>)
    requires Booked(a, b, r.error, 1) && r.error != EncodingFailed && Balanced(b, c, rs)
    ensures Balanced(a, c, [r] + rs)
  {
    hide Count;
    CountCons(r, rs, InvalidArgument);
    CountCons(r, rs, EncodingFailed);
    CountCons(r, rs, ConnectFailed);
    CountCons(r, rs, MalformedResponse);
    CountCons(r, rs, CorrelationMismatch);
    CountCons(r, rs, UnexpectedResponse);
    CountCons(r, rs, TimeoutError);
  }

  /** The n-th request ID. */
  function IdAt(n: nat): U32 {
    n % 0xFFFF_FFFF + 1
  }

  lemma NextIdAt(n: nat)
    ensures NextRequestId(IdAt(n)) == IdAt(n + 1)
  {
  }

  /** Metrics and request IDs of any run over any transport, from any client that has done n operations. */
  lemma {:induction false} RunBooks<T>(io: Interface<T>, c: ClientState, t: T, ops: seq<Op<T>>, n: nat)
    requires c.maximumReadAttempts >= 1 && c.nextRequestId == IdAt(n)
    ensures var (c', _, results) := PerformAll(io, c, t, ops);
            && Balanced(c.metrics, c'.metrics, results)
            && forall i :: 0 <= i < |results| ==> results[i].requestId == Word32(IdAt(n + i))
    decreases |ops|
  {
    hide ReadOperation, WriteOperation, Booked, Balanced, IdAt, NextRequestId, Word32;
    var (c', _, results) := PerformAll(io, c, t, ops);
    if ops == [] {
      assert Balanced(c.metrics, c.metrics, []) by { BalancedEmpty(c.metrics); }
    } else {
      match ops[0] {
        case ReadOp(address, length, deadline) =>
          ReadBooks(io, c, t, address, length, deadline);
          NextIdAt(n);
          var (c1, t1, r) := ReadOperation(io, c, t, address, length, deadline);
          RunBooks(io, c1, t1, ops[1..], n + 1);
          BalancedCons(c.metrics, c1.metrics, c'.metrics, r, results[1..]);
          IdsCons(r, results[1..], n);
        case WriteOp(address, data, deadline) =>
          WriteBooks(io, c, t, address, data, deadline);
          NextIdAt(n);
          var (c1, t1, r) := WriteOperation(io, c, t, address, data, deadline);
          RunBooks(io, c1, t1, ops[1..], n + 1);
          BalancedCons(c.metrics, c1.metrics, c'.metrics, r, results[1..]);
          IdsCons(r, results[1..], n);
        case Outside(change) =>
          RunBooks(io, c, change(t), ops[1..], n);
      }
    }
  }

  lemma BalancedEmpty(m: Metrics)
    ensures Balanced(m, m, [])
  {
  }

  lemma IdsCons(r: OperationResult, rs: seq<OperationResult>, n: nat)
    requires r.requestId == Word32(IdAt(n))
    requires forall i :: 0 <= i < |rs| ==> rs[i].requestId == Word32(IdAt(n + 1 + i))
    ensures forall i :: 0 <= i < |[r] + rs| ==> ([r] + rs)[i].requestId == Word32(IdAt(n + i))
  {
    hide Word32, IdAt;
    forall i | 0 <= i < |[r] + rs| ensures ([r] + rs)[i].requestId == Word32(IdAt(n + i)) {
      if i > 0 {
        assert ([r] + rs)[i] == rs[i - 1] && n + 1 + (i - 1) == n + i;
      }
    }
  }

  /** Conservation of the counters from a new client on. */
  lemma MetricsConserved<T>(io: Interface<T>, maximumReadAttempts: nat, t: T, ops: seq<Op<T>>)
    ensures var (c, _, results) := PerformAll(io, FreshClient(maximumReadAttempts), t, ops);
            var m := c.metrics;
            && m.operations == |results|
            && m.operations == (m.transportAttempts - m.retries) +
                 Count(results, InvalidArgument) + Count(results, EncodingFailed) + Count(results, ConnectFailed)
            && m.protocolErrors ==
                 Count(results, MalformedResponse) + Count(results, CorrelationMismatch) +
                 Count(results, UnexpectedResponse)
            && Count(results, TimeoutError) <= m.timeouts <= m.retries + Count(results, TimeoutError)
            && Count(results, EncodingFailed) == 0
  {
    hide PerformAll, Count;
    RunBooks(io, FreshClient(maximumReadAttempts), t, ops, 0);
  }

  lemma DistinctIds(i: nat, j: nat)
    requires i < j < i + 0xFFFF_FFFF
    ensures IdAt(i) != IdAt(j)
  {
  }

  /**
   The n-th operation, rejected ones included, uses the ID n mod (2^32 - 1) + 1. IDs are never zero,
   and those of any 2^32 - 1 consecutive operations are pairwise distinct.
   */
  lemma RequestIds<T>(io: Interface<T>, maximumReadAttempts: nat, t: T, ops: seq<Op<T>>)
    ensures var results := PerformAll(io, FreshClient(maximumReadAttempts), t, ops).2;
            && (forall n :: 0 <= n < |results| ==>
                  results[n].requestId == Word32(n % 0xFFFF_FFFF + 1) && results[n].requestId != 0)
            && (forall i, j :: 0 <= i < j < |results| && j - i < 0xFFFF_FFFF ==>
                  results[i].requestId != results[j].requestId)
  {
    hide PerformAll, Word32, Value32, Balanced;
    RunBooks(io, FreshClient(maximumReadAttempts), t, ops, 0);
    var results := PerformAll(io, FreshClient(maximumReadAttempts), t, ops).2;
    forall n | 0 <= n < |results|
      ensures results[n].requestId == Word32(n % 0xFFFF_FFFF + 1) && results[n].requestId != 0
    {
      assert results[n].requestId == Word32(IdAt(0 + n));
      ValueOfWord32(IdAt(n));
      ZeroWord();
    }
    forall i, j | 0 <= i < j < |results| && j - i < 0xFFFF_FFFF
      ensures results[i].requestId != results[j].requestId
    {
      assert results[i].requestId == Word32(IdAt(0 + i)) && results[j].requestId == Word32(IdAt(0 + j));
      ValueOfWord32(IdAt(i));
      ValueOfWord32(IdAt(j));
      DistinctIds(i, j);
    }
  }

  lemma ZeroWord()
    ensures Value32(0) == 0
  {
  }

  // ---------- Transports that behave alike ----------

  /** Related states answer alike and stay related, whatever is asked of both. */
  ghost predicate Alike<T(!new), U(!new)>(io: Interface<T>, other: Interface<U>, rel: (T, U) -> bool) {
    && (forall t, u :: rel(t, u) ==>
          && io.connected(t) == other.connected(u)
          && io.connect(t).1 == other.connect(u).1
          && rel(io.connect(t).0, other.connect(u).0)
          && rel(io.close(t), other.close(u)))
    && (forall t, u, request, deadline :: rel(t, u) ==>
          && io.exchange(t, request, deadline).1 == other.exchange(u, request, deadline).1
          && rel(io.exchange(t, request, deadline).0, other.exchange(u, request, deadline).0))
  }

  lemma ConnectAlike<T(!new), U(!new)>(io: Interface<T>, other: Interface<U>, rel: (T, U) -> bool, c: ClientState,
                                       t: T, u: U)
    requires Alike(io, other, rel) && rel(t, u)
    ensures var (c1, t1, ok1) := EnsureConnected(io, c, t);
            var (c2, u1, ok2) := EnsureConnected(other, c, u);
            c1 == c2 && ok1 == ok2 && rel(t1, u1)
    ensures rel(io.close(t), other.close(u))
  {
  }

  lemma ExchangeAlike<T(!new), U(!new)>(io: Interface<T>, other: Interface<U>, rel: (T, U) -> bool, t: T, u: U,
                                        request: Bytes, deadline: int)
    requires Alike(io, other, rel) && rel(t, u)
    ensures var (t1, reply1) := io.exchange(t, request, deadline);
            var (u1, reply2) := other.exchange(u, request, deadline);
            reply1 == reply2 && rel(t1, u1) && rel(io.close(t1), other.close(u1))
  {
  }

  lemma AttemptAlike<T(!new), U(!new)>(io: Interface<T>, other: Interface<U>, rel: (T, U) -> bool, c: ClientState,
                                       t: T, u: U, request: Frame, encoded: Bytes, length: nat, deadline: int,
                                       attempt: nat)
    requires Alike(io, other, rel) && rel(t, u)
    ensures var (c1, t1, r1) := Attempt(io, c, t, request, encoded, length, deadline, attempt);
            var (c2, u1, r2) := Attempt(other, c, u, request, encoded, length, deadline, attempt);
            c1 == c2 && r1 == r2 && rel(t1, u1)
  {
    hide Alike, EnsureConnected, ValidateResponse;
    ConnectAlike(io, other, rel, c, t, u);
    var (_, t1, ok) := EnsureConnected(io, c, t);
    var (_, u1, _) := EnsureConnected(other, c, u);
    if ok {
      ExchangeAlike(io, other, rel, t1, u1, encoded, deadline);
    }
  }

  lemma {:induction false} AttemptsAlike<T(!new), U(!new)>(io: Interface<T>, other: Interface<U>, rel: (T, U) -> bool,
                                                           c: ClientState, t: T, u: U, request: Frame, encoded: Bytes,
                                                           length: nat, deadline: int, attempt: nat)
    requires Alike(io, other, rel) && rel(t, u)
    ensures var (c1, t1, r1) := Attempts(io, c, t, request, encoded, length, deadline, attempt);
            var (c2, u1, r2) := Attempts(other, c, u, request, encoded, length, deadline, attempt);
            c1 == c2 && r1 == r2 && rel(t1, u1)
    decreases c.maximumReadAttempts + 1 - attempt
  {
    hide Alike, Attempt;
    if attempt <= c.maximumReadAttempts {
      AttemptAlike(io, other, rel, c, t, u, request, encoded, length, deadline, attempt);
      var (c', t', result) := Attempt(io, c, t, request, encoded, length, deadline, attempt);
      var (_, u', _) := Attempt(other, c, u, request, encoded, length, deadline, attempt);
      if result.None? {
        AttemptsAlike(io, other, rel, c', t', u', request, encoded, length, deadline, attempt + 1);
      }
    }
  }

  /** The client cannot tell such transports apart by reading, */
  lemma ReadAlike<T(!new), U(!new)>(io: Interface<T>, other: Interface<U>, rel: (T, U) -> bool, c: ClientState, t: T,
                                    u: U, address: U32, length: nat, deadline: int)
    requires Alike(io, other, rel) && rel(t, u)
    ensures var (c1, t1, r1) := ReadOperation(io, c, t, address, length, deadline);
            var (c2, u1, r2) := ReadOperation(other, c, u, address, length, deadline);
            c1 == c2 && r1 == r2 && rel(t1, u1)
  {
    hide Alike, Encode, Attempts, Word32, Word16, NextRequestId;
    if 0 < length <= MAXIMUM_PAYLOAD_SIZE && deadline > 0 {
      var request := ReadRequest(c.nextRequestId, address, length);
      ReadRequestEncodable(c.nextRequestId, address, length);
      AttemptsAlike(io, other, rel, Started(c), t, u, request, Wire(request), length, deadline, 1);
    }
  }

  /** nor by writing. */
  lemma WriteAlike<T(!new), U(!new)>(io: Interface<T>, other: Interface<U>, rel: (T, U) -> bool, c: ClientState, t: T,
                                     u: U, address: U32, data: Bytes, deadline: int)
    requires Alike(io, other, rel) && rel(t, u)
    ensures var (c1, t1, r1) := WriteOperation(io, c, t, address, data, deadline);
            var (c2, u1, r2) := WriteOperation(other, c, u, address, data, deadline);
            c1 == c2 && r1 == r2 && rel(t1, u1)
  {
    hide Alike, Encode, EnsureConnected, ValidateResponse, Word32, NextRequestId;
    if 0 < |data| <= MAXIMUM_PAYLOAD_SIZE && deadline > 0 {
      var request := WriteRequest(c.nextRequestId, address, data);
      WriteRequestEncodable(c.nextRequestId, address, data);
      ConnectAlike(io, other, rel, Started(c), t, u);
      var (_, t1, ok) := EnsureConnected(io, Started(c), t);
      var (_, u1, _) := EnsureConnected(other, Started(c), u);
      if ok {
        ExchangeAlike(io, other, rel, t1, u1, Wire(request), deadline);
      }
    }
  }

  // ---------- Invariants of the transport ----------

  /**
   A property that connect and close keep, and every exchange of certain requests with a positive
   deadline, is kept by the client's operations that send those requests.
   */
  ghost predicate Kept<T(!new)>(io: Interface<T>, inv: T -> bool, sent: Bytes -> bool) {
    && (forall t :: inv(t) ==> inv(io.connect(t).0))
    && (forall t :: inv(t) ==> inv(io.close(t)))
    && (forall t, request, deadline :: inv(t) && sent(request) && deadline > 0 ==>
          inv(io.exchange(t, request, deadline).0))
  }

  lemma {:induction false} AttemptsKeep<T(!new)>(io: Interface<T>, inv: T -> bool, sent: Bytes -> bool,
                                                 c: ClientState, t: T, request: Frame, encoded: Bytes,
                                                 length: nat, deadline: int, attempt: nat)
    requires Kept(io, inv, sent) && inv(t) && sent(encoded) && deadline > 0
    ensures inv(Attempts(io, c, t, request, encoded, length, deadline, attempt).1)
    decreases c.maximumReadAttempts + 1 - attempt
  {
    hide ValidateResponse;
    if attempt <= c.maximumReadAttempts {
      var (c', t', result) := Attempt(io, c, t, request, encoded, length, deadline, attempt);
      assert inv(t');
      if result.None? {
        AttemptsKeep(io, inv, sent, c', t', request, encoded, length, deadline, attempt + 1);
      }
    }
  }

  lemma ReadKeeps<T(!new)>(io: Interface<T>, inv: T -> bool, sent: Bytes -> bool, c: ClientState, t: T, address: U32,
                           length: nat, deadline: int)
    requires Kept(io, inv, sent) && inv(t)
    requires 0 < length <= MAXIMUM_PAYLOAD_SIZE ==>
               forall wire :: Encode(ReadRequest(c.nextRequestId, address, length)) == Encoded(wire) ==> sent(wire)
    ensures inv(ReadOperation(io, c, t, address, length, deadline).1)
  {
    hide Encode, Attempts, Word32, Word16;
    if 0 < length <= MAXIMUM_PAYLOAD_SIZE && deadline > 0 {
      var request := ReadRequest(c.nextRequestId, address, length);
      ReadRequestEncodable(c.nextRequestId, address, length);
      AttemptsKeep(io, inv, sent, Started(c), t, request, Wire(request), length, deadline, 1);
    }
  }

  lemma WriteKeeps<T(!new)>(io: Interface<T>, inv: T -> bool, sent: Bytes -> bool, c: ClientState, t: T, address: U32,
                            data: Bytes, deadline: int)
    requires Kept(io, inv, sent) && inv(t)
    requires forall wire :: Encode(WriteRequest(c.nextRequestId, address, data)) == Encoded(wire) ==> sent(wire)
    ensures inv(WriteOperation(io, c, t, address, data, deadline).1)
  {
    hide Encode, ValidateResponse, Word32;
  }
}
