/** The bounded memory map with its three access regions (src/memory_map.cpp). */
module Memory {
  import opened Words
  import opened Frames

  const CAPACITY := 4096

  type Contents = m: Bytes | |m| == CAPACITY witness seq(CAPACITY, _ => 0)

  datatype Access = ReadOnly | ReadWrite | Denied

  datatype ReadResult = ReadResult(status: bv16, data: Bytes)

  function AccessFor(address: U32): Access {
    if address <= 0x00FF then ReadOnly
    else if address <= 0x07FF then ReadWrite
    else Denied
  }

  /** The check never forms the sum of address and length; it still decides the mathematical question. */
  predicate RangeFits(address: U32, length: nat)
    ensures RangeFits(address, length) <==> length > 0 && address + length <= CAPACITY
  {
    if length == 0 || length > CAPACITY then false
    else address < CAPACITY && length <= CAPACITY - address
  }

  /** No octet of the range is denied. */
  predicate Readable(address: nat, length: nat)
    requires address + length <= CAPACITY
  {
    forall i: U32 :: address <= i < address + length ==> AccessFor(i) != Denied
  }

  /** Every octet of the range may be written. */
  predicate Writable(address: nat, length: nat)
    requires address + length <= CAPACITY
  {
    forall i: U32 :: address <= i < address + length ==> AccessFor(i) == ReadWrite
  }

  function Slice(m: Contents, address: nat, length: nat): (r: Bytes)
    requires address + length <= CAPACITY
    ensures |r| == length
  {
    m[address..address + length]
  }

  function Overlay(m: Contents, address: nat, data: Bytes): (r: Contents)
    requires address + |data| <= CAPACITY
    ensures forall i :: 0 <= i < CAPACITY ==>
              r[i] == if address <= i < address + |data| then data[i - address] else m[i]
  {
    m[..address] + data + m[address + |data|..]
  }

  function ReadRange(m: Contents, address: U32, length: nat): ReadResult {
    if !RangeFits(address, length) || length > MAXIMUM_PAYLOAD_SIZE then ReadResult(OUT_OF_RANGE, [])
    else if !Readable(address, length) then ReadResult(ACCESS_DENIED, [])
    else ReadResult(OK, Slice(m, address, length))
  }

  function WriteStatus(address: U32, length: nat): bv16 {
    if !RangeFits(address, length) || length > MAXIMUM_PAYLOAD_SIZE then OUT_OF_RANGE
    else if !Writable(address, length) then ACCESS_DENIED
    else OK
  }

  function WriteRange(m: Contents, address: U32, data: Bytes): Contents {
    if WriteStatus(address, |data|) == OK then Overlay(m, address, data) else m
  }

  /** A read succeeds (status 0) exactly for 1 to 256 octets below 0x800, and no other read gives octets away. */
  lemma ReadSucceeds(m: Contents, address: U32, length: nat)
    ensures var r := ReadRange(m, address, length);
            && (r.status == 0 <==> 1 <= length <= 256 && address + length <= 0x800)
            && (r.status == 4 <==> 1 <= length <= 256 && 0x800 < address + length <= 0x1000)
            && (r.status == 2 <==> length == 0 || length > 256 || address + length > 0x1000)
            && (r.status == 0 ==> |r.data| == length && forall i :: 0 <= i < length ==> r.data[i] == m[address + i])
            && (r.status != 0 ==> r.data == [])
  {
    if RangeFits(address, length) {
      assert address <= address + length - 1 < address + length;
      var last: U32 := address + length - 1;
      assert Readable(address, length) ==> AccessFor(last) != Denied;
    }
  }

  /** A write succeeds (status 0) exactly for 1 to 256 octets inside 0x100..0x7ff. */
  lemma WriteSucceeds(address: U32, length: nat)
    ensures WriteStatus(address, length) == 0 <==> 1 <= length <= 256 && 0x100 <= address && address + length <= 0x800
    ensures WriteStatus(address, length) == 4 <==>
            1 <= length <= 256 && address + length <= 0x1000 && !(0x100 <= address && address + length <= 0x800)
    ensures WriteStatus(address, length) == 2 <==> length == 0 || length > 256 || address + length > 0x1000
  {
    if RangeFits(address, length) {
      var last: U32 := address + length - 1;
      assert Writable(address, length) ==> AccessFor(address) == ReadWrite && AccessFor(last) == ReadWrite;
    }
  }

  const IDENTITY := "IMLP/1 synthetic memory simulator"

  function CharOctet(c: char): bv8 {
    Octet(c as int % 0x100)
  }

  /** A fresh map: the identity text, the protocol version at 0x40, and zeros. */
  function Initial(): Contents {
    seq(CAPACITY, i requires 0 <= i < CAPACITY =>
      if i < |IDENTITY| then CharOctet(IDENTITY[i]) else if i == 0x40 then PROTOCOL_VERSION else 0)
  }

  /** The ASCII codes of the identity text. */
  const IDENTITY_CODES: seq<nat> := [
    0x49, 0x4D, 0x4C, 0x50, 0x2F, 0x31, 0x20, 0x73, 0x79, 0x6E, 0x74,
    0x68, 0x65, 0x74, 0x69, 0x63, 0x20, 0x6D, 0x65, 0x6D, 0x6F, 0x72,
    0x79, 0x20, 0x73, 0x69, 0x6D, 0x75, 0x6C, 0x61, 0x74, 0x6F, 0x72]

  /** The octet at an address to which nothing has been written. */
  predicate IsFreshOctet(a: nat, b: bv8) {
    if a < 33 then Nat(b) == IDENTITY_CODES[a] else if a == 0x40 then b == 0x01 else b == 0x00
  }

  predicate IsFresh(m: Contents) {
    forall a :: 0 <= a < 0x1000 ==> IsFreshOctet(a, m[a])
  }

  lemma IdentityCodes()
    ensures forall a :: 0 <= a < 33 ==> IDENTITY[a] as int == IDENTITY_CODES[a] < 0x100
  {
  }

  lemma CharCode(c: char)
    requires c as int < 0x100
    ensures Nat(CharOctet(c)) == c as int
  {
    hide Nat, Octet;
  }

  lemma InitialIsFresh()
    ensures IsFresh(Initial())
  {
    hide Nat, CharOctet;
    IdentityCodes();
    forall a | 0 <= a < 33 ensures IsFreshOctet(a, Initial()[a]) {
      CharCode(IDENTITY[a]);
    }
  }

  /** The start of the identity text and the version octet, as a client first reads them. */
  lemma InitialReads()
    ensures ReadRange(Initial(), 0, 4) == ReadResult(OK, [0x49, 0x4D, 0x4C, 0x50])
    ensures ReadRange(Initial(), 0x40, 1) == ReadResult(OK, [PROTOCOL_VERSION])
  {
    ReadSucceeds(Initial(), 0, 4);
    ReadSucceeds(Initial(), 0x40, 1);
    assert IDENTITY[0] == 'I' && IDENTITY[1] == 'M' && IDENTITY[2] == 'L' && IDENTITY[3] == 'P';
    assert Slice(Initial(), 0, 4) == [CharOctet('I'), CharOctet('M'), CharOctet('L'), CharOctet('P')];
    assert Slice(Initial(), 0x40, 1) == [PROTOCOL_VERSION];
  }

  class MemoryMap {
    const bytes: array<bv8>

    ghost predicate Valid() {
      bytes.Length == CAPACITY
    }

    ghost function Value(): Contents
      requires Valid()
      reads bytes
    {
      bytes[..]
    }

    constructor ()
      ensures Valid() && fresh(bytes)
      ensures Value() == Initial() && IsFresh(Value())
    {
      hide CharOctet, IsFresh;
      bytes := new bv8[CAPACITY](_ => 0);
      new;
      var index := 0;
      while index < |IDENTITY|
        invariant 0 <= index <= |IDENTITY|
        invariant forall i :: 0 <= i < CAPACITY ==> bytes[i] == if i < index then CharOctet(IDENTITY[i]) else 0
      {
        bytes[index] := CharOctet(IDENTITY[index]);
        index := index + 1;
      }
      bytes[0x40] := PROTOCOL_VERSION;
      InitialIsFresh();
    }

    method Read(address: U32, length: nat) returns (r: ReadResult)
      requires Valid()
      ensures r == ReadRange(Value(), address, length)
    {
      if !RangeFits(address, length) || length > MAXIMUM_PAYLOAD_SIZE {
        return ReadResult(OUT_OF_RANGE, []);
      }
      var offset := 0;
      while offset < length
        invariant 0 <= offset <= length
        invariant Readable(address, offset)
      {
        if AccessFor(address + offset) == Denied {
          return ReadResult(ACCESS_DENIED, []);
        }
        offset := offset + 1;
      }
      return ReadResult(OK, bytes[address..address + length]);
    }

    /** The whole range is checked before any octet is copied. */
    method Write(address: U32, data: Bytes) returns (status: bv16)
      requires Valid()
      modifies bytes
      ensures status == WriteStatus(address, |data|)
      ensures Value() == WriteRange(old(Value()), address, data)
    {
      if !RangeFits(address, |data|) || |data| > MAXIMUM_PAYLOAD_SIZE {
        return OUT_OF_RANGE;
      }
      var offset := 0;
      while offset < |data|
        invariant 0 <= offset <= |data|
        invariant Writable(address, offset)
      {
        if AccessFor(address + offset) != ReadWrite {
          return ACCESS_DENIED;
        }
        offset := offset + 1;
      }
      CopyIn(address, data);
      return OK;
    }

    /** std::copy into the array. */
    method CopyIn(address: nat, data: Bytes)
      requires Valid() && address + |data| <= CAPACITY
      modifies bytes
      ensures Value() == Overlay(old(Value()), address, data)
    {
      var i := 0;
      while i < |data|
        invariant 0 <= i <= |data|
        invariant bytes[..] == Overlay(old(bytes[..]), address, data[..i])
      {
        bytes[address + i] := data[i];
        i := i + 1;
      }
      assert data[..|data|] == data;
    }
  }
}
