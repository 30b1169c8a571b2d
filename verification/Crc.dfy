/**
 The IEEE CRC-32 of src/codec.cpp: the bit-by-bit register, its algebra, and the equivalence with
 the table-driven sample code of section 8 of RFC 1952.

 The register is wrapped in a datatype so that most proofs can treat it as an element of an abstract
 group. Only the small lemmas about single shifts look at its bits.
 */
module Crc {
  import opened Words

  datatype Reg = Reg(bits: bv32)

  const POLYNOMIAL: bv32 := 0xEDB8_8320
  const ZERO := Reg(0)
  const INITIAL := Reg(0xFFFF_FFFF)

  function Add(c: Reg, d: Reg): Reg {
    Reg(c.bits ^ d.bits)
  }

  /** The register with an octet in its low end. */
  function Low(b: bv8): Reg {
    Reg(b as bv32)
  }

  /** One turn of the inner loop: shift the reflected register and fold the polynomial in. */
  function Fold(crc: bv32): bv32 {
    var mask: bv32 := 0 - (crc & 1);
    (crc >> 1) ^ (POLYNOMIAL & mask)
  }

  function Shift(c: Reg): Reg {
    Reg(Fold(c.bits))
  }

  function Shifts(c: Reg, n: nat): Reg
    decreases n
  {
    if n == 0 then c else Shifts(Shift(c), n - 1)
  }

  function Shift8(c: Reg): Reg {
    Shift(Shift(Shift(Shift(Shift(Shift(Shift(Shift(c))))))))
  }

  /** One turn of the outer loop. */
  function Absorb(c: Reg, b: bv8): Reg {
    Shift8(Add(c, Low(b)))
  }

  function Register(c: Reg, s: Bytes): Reg
    decreases |s|
  {
    if s == [] then c else Register(Absorb(c, s[0]), s[1..])
  }

  function Complement(c: Reg): Reg {
    Reg(!c.bits)
  }

  function Crc32(s: Bytes): bv32 {
    Complement(Register(INITIAL, s)).bits
  }

  /** The loops of the program, proved against the functions above. */
  method ComputeCrc32(bytes: Bytes) returns (r: bv32)
    ensures r == Crc32(bytes)
  {
    hide Absorb;
    hide Shifts;
    hide Complement;
    var crc: bv32 := 0xFFFF_FFFF;
    var i := 0;
    while i < |bytes|
      invariant 0 <= i <= |bytes|
      invariant Register(Reg(crc), bytes[i..]) == Register(INITIAL, bytes)
    {
      AbsorbByShifts(crc, bytes[i]);
      crc := ShiftOctet(crc ^ (bytes[i] as bv32));
      assert bytes[i..][1..] == bytes[i + 1..];
      i := i + 1;
    }
    ComplementBits(crc);
    r := !crc;
  }

  lemma ComplementBits(c: bv32)
    ensures Complement(Reg(c)).bits == !c
  {
  }

  /** The inner loop. */
  method ShiftOctet(start: bv32) returns (crc: bv32)
    ensures Reg(crc) == Shifts(Reg(start), 8)
  {
    hide Fold;
    crc := start;
    var bit := 0;
    while bit < 8
      invariant 0 <= bit <= 8
      invariant Shifts(Reg(crc), 8 - bit) == Shifts(Reg(start), 8)
    {
      FoldOnce(crc);
      var mask: bv32 := 0 - (crc & 1);
      crc := (crc >> 1) ^ (POLYNOMIAL & mask);
      bit := bit + 1;
    }
  }

  lemma FoldOnce(crc: bv32)
    ensures Fold(crc) == (crc >> 1) ^ (POLYNOMIAL & (0 - (crc & 1)))
  {
  }

  lemma AbsorbByShifts(c: bv32, b: bv8)
    ensures Absorb(Reg(c), b) == Shifts(Reg(c ^ (b as bv32)), 8)
  {
    hide Shift8;
    hide Shifts;
    hide Add;
    hide Low;
    AddLowBits(c, b);
    Shifts8(Add(Reg(c), Low(b)));
  }

  lemma AddLowBits(c: bv32, b: bv8)
    ensures Add(Reg(c), Low(b)) == Reg(c ^ (b as bv32))
  {
  }

  lemma Shifts8(c: Reg)
    ensures Shifts(c, 8) == Shift8(c)
  {
    hide Shift;
  }

  // ---------- The group of registers ----------

  lemma AddZero(c: Reg)
    ensures Add(c, ZERO) == c && Add(ZERO, c) == c
  {
  }

  lemma AddSelf(c: Reg, d: Reg)
    ensures Add(c, d) == ZERO <==> c == d
  {
  }

  lemma AddCommutes(c: Reg, d: Reg)
    ensures Add(c, d) == Add(d, c)
  {
  }

  lemma AddAssociates(a: Reg, b: Reg, c: Reg)
    ensures Add(Add(a, b), c) == Add(a, Add(b, c))
  {
  }

  lemma AddSwap(a: Reg, b: Reg, c: Reg, d: Reg)
    ensures Add(Add(a, b), Add(c, d)) == Add(Add(a, c), Add(b, d))
  {
    hide Add;
    AddAssociates(a, b, Add(c, d));
    AddAssociates(b, c, d);
    AddCommutes(b, c);
    AddAssociates(c, b, d);
    AddAssociates(a, c, Add(b, d));
  }

  lemma ComplementIsAdd(c: Reg)
    ensures Complement(c) == Add(c, INITIAL)
    ensures Add(Complement(c), INITIAL) == c
  {
  }

  lemma AddLow(a: bv8, b: bv8)
    ensures Low(a ^ b) == Add(Low(a), Low(b))
  {
  }

  // ---------- Linearity and injectivity ----------

  function Half(c: Reg): Reg {
    Reg(c.bits >> 1)
  }

  predicate Odd(c: Reg) {
    c.bits & 1 != 0
  }

  const POLY := Reg(POLYNOMIAL)

  lemma ShiftCases(c: Reg)
    ensures Shift(c) == if Odd(c) then Add(Half(c), POLY) else Half(c)
  {
  }

  lemma HalfLinear(c: Reg, d: Reg)
    ensures Half(Add(c, d)) == Add(Half(c), Half(d))
  {
  }

  lemma OddLinear(c: Reg, d: Reg)
    ensures Odd(Add(c, d)) <==> Odd(c) != Odd(d)
  {
  }

  lemma ShiftLinear(c: Reg, d: Reg)
    ensures Shift(Add(c, d)) == Add(Shift(c), Shift(d))
  {
    hide Shift;
    hide Add;
    hide Half;
    hide Odd;
    ShiftCases(c);
    ShiftCases(d);
    ShiftCases(Add(c, d));
    HalfLinear(c, d);
    OddLinear(c, d);
    var x, y := Half(c), Half(d);
    if Odd(c) && Odd(d) {
      AddSwap(x, POLY, y, POLY);
      AddSelf(POLY, POLY);
      AddZero(Add(x, y));
    } else if Odd(c) {
      AddAssociates(x, POLY, y);
      AddCommutes(POLY, y);
      AddAssociates(x, y, POLY);
    } else if Odd(d) {
      AddAssociates(x, y, POLY);
    }
  }

  lemma ShiftInjective(c: Reg, d: Reg)
    requires Shift(c) == Shift(d)
    ensures c == d
  {
  }

  lemma Shift8Linear(c: Reg, d: Reg)
    ensures Shift8(Add(c, d)) == Add(Shift8(c), Shift8(d))
  {
    hide Shift;
    hide Add;
    ShiftLinear(c, d);
    var c1, d1 := Shift(c), Shift(d);
    ShiftLinear(c1, d1);
    var c2, d2 := Shift(c1), Shift(d1);
    ShiftLinear(c2, d2);
    var c3, d3 := Shift(c2), Shift(d2);
    ShiftLinear(c3, d3);
    var c4, d4 := Shift(c3), Shift(d3);
    ShiftLinear(c4, d4);
    var c5, d5 := Shift(c4), Shift(d4);
    ShiftLinear(c5, d5);
    var c6, d6 := Shift(c5), Shift(d5);
    ShiftLinear(c6, d6);
    ShiftLinear(Shift(c6), Shift(d6));
  }

  function LowOctet(c: Reg): bv8 {
    (c.bits & 0xFF) as bv8
  }

  function DropOctet(c: Reg): Reg {
    Reg(c.bits >> 8)
  }

  /** A register whose low octet is zero is only shifted: nothing is folded in. */
  lemma Shift8High(c: Reg)
    requires LowOctet(c) == 0
    ensures Shift8(c) == DropOctet(c)
  {
  }

  function Xor(a: Bytes, b: Bytes): (r: Bytes)
    requires |a| == |b|
    ensures |r| == |a|
    ensures forall i :: 0 <= i < |a| ==> r[i] == a[i] ^ b[i]
  {
    seq(|a|, i requires 0 <= i < |a| => a[i] ^ b[i])
  }

  lemma AbsorbLinear(c: Reg, d: Reg, a: bv8, b: bv8)
    ensures Absorb(Add(c, d), a ^ b) == Add(Absorb(c, a), Absorb(d, b))
  {
    hide Shift8;
    hide Add;
    hide Low;
    AddLow(a, b);
    AddSwap(c, d, Low(a), Low(b));
    Shift8Linear(Add(c, Low(a)), Add(d, Low(b)));
  }

  lemma {:induction false} RegisterLinear(c: Reg, d: Reg, a: Bytes, b: Bytes)
    requires |a| == |b|
    ensures Register(Add(c, d), Xor(a, b)) == Add(Register(c, a), Register(d, b))
    decreases |a|
  {
    hide Absorb;
    hide Add;
    if a != [] {
      AbsorbLinear(c, d, a[0], b[0]);
      assert Xor(a, b)[1..] == Xor(a[1..], b[1..]);
      RegisterLinear(Absorb(c, a[0]), Absorb(d, b[0]), a[1..], b[1..]);
    }
  }

  lemma ComplementSum(a: Reg, b: Reg, c: Reg)
    ensures Add(Add(Complement(a), Complement(b)), Complement(c)) == Complement(Add(Add(a, b), c))
  {
    hide Add;
    hide Complement;
    ComplementIsAdd(a);
    ComplementIsAdd(b);
    ComplementIsAdd(c);
    ComplementIsAdd(Add(Add(a, b), c));
    AddSwap(a, INITIAL, b, INITIAL);
    AddSelf(INITIAL, INITIAL);
    AddZero(Add(a, b));
    AddAssociates(Add(a, b), c, INITIAL);
  }

  lemma AddBits(a: Reg, b: Reg, c: Reg)
    ensures Add(Add(a, b), c).bits == a.bits ^ b.bits ^ c.bits
  {
  }

  /** crc32 is affine over exclusive or. */
  lemma Affine(a: Bytes, b: Bytes, c: Bytes)
    requires |a| == |b| == |c|
    ensures Crc32(a) ^ Crc32(b) ^ Crc32(c) == Crc32(Xor(Xor(a, b), c))
  {
    hide Register;
    hide Add;
    hide Complement;
    RegisterLinear(INITIAL, INITIAL, a, b);
    RegisterLinear(Add(INITIAL, INITIAL), INITIAL, Xor(a, b), c);
    AddSelf(INITIAL, INITIAL);
    AddZero(INITIAL);
    ComplementSum(Register(INITIAL, a), Register(INITIAL, b), Register(INITIAL, c));
    AddBits(Reg(Crc32(a)), Reg(Crc32(b)), Reg(Crc32(c)));
  }

  lemma {:induction false} RegisterConcat(c: Reg, a: Bytes, b: Bytes)
    ensures Register(c, a + b) == Register(Register(c, a), b)
    decreases |a|
  {
    hide Absorb;
    if a == [] {
      assert a + b == b;
    } else {
      assert (a + b)[1..] == a[1..] + b;
      RegisterConcat(Absorb(c, a[0]), a[1..], b);
    }
  }

  // ---------- The sample code of RFC 1952, section 8 ----------

  function TableStep(c: Reg): Reg {
    if c.bits & 1 != 0 then Reg(POLYNOMIAL ^ (c.bits >> 1)) else Reg(c.bits >> 1)
  }

  /** crc_table[n], as make_crc_table fills it. */
  function TableEntry(n: bv8): Reg {
    TableStep(TableStep(TableStep(TableStep(TableStep(TableStep(TableStep(TableStep(Reg(n as bv32)))))))))
  }

  /** One turn of the loop of update_crc: a look-up by the low octet, and a shift by eight. */
  function TableTurn(c: Reg, b: bv8): Reg {
    Add(TableEntry(LowOctet(Add(c, Low(b)))), DropOctet(c))
  }

  function UpdateLoop(c: Reg, buf: Bytes): Reg
    decreases |buf|
  {
    if buf == [] then c else UpdateLoop(TableTurn(c, buf[0]), buf[1..])
  }

  /** update_crc, with its pre- and post-conditioning. */
  function UpdateCrc(crc: bv32, buf: Bytes): bv32 {
    Add(UpdateLoop(Add(Reg(crc), Reg(0xFFFF_FFFF)), buf), Reg(0xFFFF_FFFF)).bits
  }

  lemma TableEntryIsShift8(n: bv8)
    ensures TableEntry(n) == Shift8(Low(n))
  {
  }

  function HighOctets(c: Reg): Reg {
    Reg((c.bits >> 8) << 8)
  }

  lemma SplitLow(c: Reg, b: bv8)
    ensures Add(c, Low(b)) == Add(Low(LowOctet(Add(c, Low(b)))), HighOctets(c))
  {
  }

  lemma HighOctetsLow(c: Reg)
    ensures LowOctet(HighOctets(c)) == 0
  {
  }

  lemma HighOctetsDrop(c: Reg)
    ensures DropOctet(HighOctets(c)) == DropOctet(c)
  {
  }

  /** Splitting the register into its low octet, which is looked up, and the rest, which is shifted. */
  lemma TableTurnIsAbsorb(c: Reg, b: bv8)
    ensures TableTurn(c, b) == Absorb(c, b)
  {
    hide Shift8;
    hide TableEntry;
    hide Add;
    hide Low;
    hide LowOctet;
    hide DropOctet;
    hide HighOctets;
    var low := LowOctet(Add(c, Low(b)));
    SplitLow(c, b);
    TableEntryIsShift8(low);
    Shift8Linear(Low(low), HighOctets(c));
    HighOctetsLow(c);
    HighOctetsDrop(c);
    Shift8High(HighOctets(c));
  }

  lemma {:induction false} UpdateLoopIsRegister(c: Reg, buf: Bytes)
    ensures UpdateLoop(c, buf) == Register(c, buf)
    decreases |buf|
  {
    hide Absorb;
    hide TableTurn;
    if buf != [] {
      TableTurnIsAbsorb(c, buf[0]);
      UpdateLoopIsRegister(TableTurn(c, buf[0]), buf[1..]);
    }
  }

  /** The loop of the program computes the CRC of the RFC. */
  lemma MatchesRfc1952(s: Bytes)
    ensures Crc32(s) == UpdateCrc(0, s)
  {
    hide Register;
    hide UpdateLoop;
    hide Add;
    hide Complement;
    AddZero(INITIAL);
    UpdateLoopIsRegister(INITIAL, s);
    ComplementIsAdd(Register(INITIAL, s));
  }

  /** The checksum can be continued: updating the CRC of a with b gives the CRC of a followed by b. */
  lemma Incremental(a: Bytes, b: Bytes)
    ensures UpdateCrc(Crc32(a), b) == Crc32(a + b)
  {
    hide Register;
    hide UpdateLoop;
    hide Add;
    hide Complement;
    RegisterConcat(INITIAL, a, b);
    var c := Register(INITIAL, a);
    ComplementIsAdd(c);
    UpdateLoopIsRegister(c, b);
    ComplementIsAdd(Register(c, b));
  }
}
