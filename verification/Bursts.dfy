/**
 What the checksum cannot miss. A message is read as the bit string its octets are shifted in as,
 least significant bit first. Two messages that agree outside some 32 consecutive bits have different
 checksums. The last section looks at windows of octets that reach into a trailing, big-endian
 checksum, where the same promise has exactly one exception.
 */
module Bursts {
  import opened Words
  import opened Crc

  type Bits = seq<bool>

  const ONE := Reg(1)

  function Halves(x: Reg, n: nat): Reg
    decreases n
  {
    if n == 0 then x else Halves(Half(x), n - 1)
  }

  /** The n low bits of a register, lowest first. */
  function LowBits(x: Reg, n: nat): (r: Bits)
    ensures |r| == n
    decreases n
  {
    if n == 0 then [] else [Odd(x)] + LowBits(Half(x), n - 1)
  }

  function OctetBits(b: bv8): (r: Bits)
    ensures |r| == 8
  {
    LowBits(Low(b), 8)
  }

  function BitsOf(s: Bytes): (r: Bits)
    ensures |r| == 8 * |s|
  {
    if s == [] then [] else OctetBits(s[0]) + BitsOf(s[1..])
  }

  function AbsorbBit(c: Reg, b: bool): Reg {
    Shift(if b then Add(c, ONE) else c)
  }

  function BitRegister(c: Reg, w: Bits): Reg
    decreases |w|
  {
    if w == [] then c else BitRegister(AbsorbBit(c, w[0]), w[1..])
  }

  // ---------- The register, one bit at a time ----------

  lemma ShiftOne()
    ensures Shift(ONE) == POLY
  {
  }

  /** Shifting a sum absorbs the low bit of one summand and halves the rest of it. */
  lemma PeelBit(c: Reg, x: Reg)
    ensures Shift(Add(c, x)) == Add(AbsorbBit(c, Odd(x)), Half(x))
  {
    hide Shift;
    hide Add;
    hide Half;
    hide Odd;
    ShiftLinear(c, x);
    ShiftCases(x);
    if Odd(x) {
      ShiftOne();
      ShiftLinear(c, ONE);
      AddCommutes(Half(x), POLY);
      AddAssociates(Shift(c), POLY, Half(x));
    }
  }

  lemma {:induction false} PeelBits(c: Reg, x: Reg, n: nat)
    ensures Shifts(Add(c, x), n) == Add(BitRegister(c, LowBits(x, n)), Halves(x, n))
    decreases n
  {
    hide Shift;
    hide Add;
    hide Half;
    hide Odd;
    hide AbsorbBit;
    if n > 0 {
      PeelBit(c, x);
      PeelBits(AbsorbBit(c, Odd(x)), Half(x), n - 1);
      assert LowBits(x, n)[1..] == LowBits(Half(x), n - 1);
    }
  }

  lemma HalvesOfOctet(b: bv8)
    ensures Halves(Low(b), 8) == ZERO
  {
  }

  lemma AbsorbIsBits(c: Reg, b: bv8)
    ensures Absorb(c, b) == BitRegister(c, OctetBits(b))
  {
    hide Shift8;
    hide Shifts;
    hide Add;
    hide Low;
    hide Halves;
    hide LowBits;
    hide BitRegister;
    Shifts8(Add(c, Low(b)));
    PeelBits(c, Low(b), 8);
    HalvesOfOctet(b);
    AddZero(BitRegister(c, OctetBits(b)));
  }

  lemma {:induction false} BitRegisterConcat(c: Reg, v: Bits, w: Bits)
    ensures BitRegister(c, v + w) == BitRegister(BitRegister(c, v), w)
    decreases |v|
  {
    hide AbsorbBit;
    if v == [] {
      assert v + w == w;
    } else {
      assert (v + w)[1..] == v[1..] + w;
      BitRegisterConcat(AbsorbBit(c, v[0]), v[1..], w);
    }
  }

  lemma {:induction false} RegisterIsBits(c: Reg, s: Bytes)
    ensures Register(c, s) == BitRegister(c, BitsOf(s))
    decreases |s|
  {
    hide Absorb;
    hide OctetBits;
    hide AbsorbBit;
    if s != [] {
      AbsorbIsBits(c, s[0]);
      RegisterIsBits(Absorb(c, s[0]), s[1..]);
      BitRegisterConcat(c, OctetBits(s[0]), BitsOf(s[1..]));
    }
  }

  lemma AddOneInjective(c: Reg, d: Reg)
    requires Add(c, ONE) == Add(d, ONE)
    ensures c == d
  {
  }

  /** The register remembers everything: equal inputs never merge different registers. */
  lemma {:induction false} BitRegisterInjective(c: Reg, d: Reg, w: Bits)
    requires BitRegister(c, w) == BitRegister(d, w)
    ensures c == d
    decreases |w|
  {
    hide Shift;
    hide Add;
    if w != [] {
      BitRegisterInjective(AbsorbBit(c, w[0]), AbsorbBit(d, w[0]), w[1..]);
      ShiftInjective(if w[0] then Add(c, ONE) else c, if w[0] then Add(d, ONE) else d);
      if w[0] {
        AddOneInjective(c, d);
      }
    }
  }

  function XorBits(v: Bits, w: Bits): (r: Bits)
    requires |v| == |w|
    ensures |r| == |v|
    ensures forall i :: 0 <= i < |v| ==> (r[i] <==> v[i] != w[i])
  {
    seq(|v|, i requires 0 <= i < |v| => v[i] != w[i])
  }

  lemma AbsorbBitLinear(c: Reg, d: Reg, a: bool, b: bool)
    ensures AbsorbBit(Add(c, d), a != b) == Add(AbsorbBit(c, a), AbsorbBit(d, b))
  {
    hide Shift;
    hide Add;
    var x, y := if a then Add(c, ONE) else c, if b then Add(d, ONE) else d;
    ShiftLinear(x, y);
    if a && b {
      AddSwap(c, ONE, d, ONE);
      AddSelf(ONE, ONE);
      AddZero(Add(c, d));
    } else if a {
      AddAssociates(c, ONE, d);
      AddCommutes(ONE, d);
      AddAssociates(c, d, ONE);
    } else if b {
      AddAssociates(c, d, ONE);
    }
  }

  lemma {:induction false} BitRegisterLinear(c: Reg, d: Reg, v: Bits, w: Bits)
    requires |v| == |w|
    ensures BitRegister(Add(c, d), XorBits(v, w)) == Add(BitRegister(c, v), BitRegister(d, w))
    decreases |v|
  {
    hide Add;
    hide AbsorbBit;
    if v != [] {
      AbsorbBitLinear(c, d, v[0], w[0]);
      assert XorBits(v, w)[1..] == XorBits(v[1..], w[1..]);
      BitRegisterLinear(AbsorbBit(c, v[0]), AbsorbBit(d, w[0]), v[1..], w[1..]);
    }
  }

  // ---------- A window of 32 bits ----------

  function Push(b: bool, v: Reg): Reg {
    Reg((v.bits << 1) | (if b then 1 else 0))
  }

  /** The window as a register, its first bit lowest. */
  function Pack(w: Bits): Reg {
    if w == [] then ZERO else Push(w[0], Pack(w[1..]))
  }

  predicate TopClear(v: Reg) {
    v.bits & 0x8000_0000 == 0
  }

  predicate Within(v: Reg, m: Reg) {
    v.bits & m.bits == v.bits
  }

  function Mask(n: nat): Reg {
    if n == 0 then ZERO else Push(true, Mask(n - 1))
  }

  lemma PushWithin(b: bool, v: Reg, m: Reg)
    requires Within(v, m)
    ensures Within(Push(b, v), Push(true, m))
  {
  }

  lemma WithinZero(m: Reg)
    ensures Within(ZERO, m)
  {
  }

  lemma {:induction false} PackWithin(w: Bits, n: nat)
    requires |w| <= n
    ensures Within(Pack(w), Mask(n))
    decreases n
  {
    hide Push;
    hide Within;
    WithinZero(Mask(n));
    if w != [] {
      PackWithin(w[1..], n - 1);
      PushWithin(w[0], Pack(w[1..]), Mask(n - 1));
    }
  }

  lemma Mask31()
    ensures Mask(31) == Reg(0x7FFF_FFFF)
  {
    assert Mask(8) == Reg(0xFF);
    assert Mask(16) == Reg(0xFFFF);
    assert Mask(24) == Reg(0xFF_FFFF);
  }

  lemma WithinTopClear(v: Reg)
    requires Within(v, Reg(0x7FFF_FFFF))
    ensures TopClear(v)
  {
  }

  lemma PackTopClear(w: Bits)
    requires |w| <= 31
    ensures TopClear(Pack(w))
  {
    hide Within;
    hide TopClear;
    hide Pack;
    hide Mask;
    PackWithin(w, 31);
    Mask31();
    WithinTopClear(Pack(w));
  }

  /** A shift whose result has a clear top bit folded nothing in, so it can be undone. */
  lemma UndoShift(c: Reg, b: bool, v: Reg)
    requires AbsorbBit(c, b) == v && TopClear(v)
    ensures c == Push(b, v)
  {
  }

  lemma PushZero(b: bool, v: Reg)
    requires Push(b, v) == ZERO && TopClear(v)
    ensures !b && v == ZERO
  {
  }

  lemma {:induction false} PackZero(w: Bits)
    requires |w| <= 32 && Pack(w) == ZERO
    ensures forall i :: 0 <= i < |w| ==> !w[i]
  {
    hide Push;
    hide TopClear;
    if w != [] {
      PackTopClear(w[1..]);
      PushZero(w[0], Pack(w[1..]));
      PackZero(w[1..]);
      assert w == [w[0]] + w[1..];
    }
  }

  /** Only one register is driven to zero by a window of at most 32 bits: the window itself. */
  lemma {:induction false} DrivenToZero(c: Reg, w: Bits)
    requires |w| <= 32 && BitRegister(c, w) == ZERO
    ensures c == Pack(w)
    decreases |w|
  {
    hide Push;
    hide TopClear;
    hide AbsorbBit;
    if w != [] {
      DrivenToZero(AbsorbBit(c, w[0]), w[1..]);
      PackTopClear(w[1..]);
      UndoShift(c, w[0], Pack(w[1..]));
    }
  }

  lemma WindowDetected(c: Reg, v: Bits, w: Bits)
    requires |v| == |w| <= 32 && BitRegister(c, v) == BitRegister(c, w)
    ensures v == w
  {
    hide Add;
    hide BitRegister;
    BitRegisterLinear(c, c, v, w);
    AddSelf(c, c);
    AddSelf(BitRegister(c, v), BitRegister(c, w));
    var e := XorBits(v, w);
    DrivenToZero(ZERO, e);
    PackZero(e);
    assert forall i :: 0 <= i < |v| ==> v[i] == w[i] by {
      forall i | 0 <= i < |v| ensures v[i] == w[i] {
        assert !e[i];
      }
    }
  }

  lemma BitBurst(c: Reg, x: Bits, y: Bits, p: nat, q: nat)
    requires |x| == |y| && p <= q <= |x| && q - p <= 32
    requires x[..p] == y[..p] && x[q..] == y[q..]
    requires BitRegister(c, x) == BitRegister(c, y)
    ensures x == y
  {
    hide BitRegister;
    var d := BitRegister(c, x[..p]);
    assert x == x[..p] + (x[p..q] + x[q..]) && y == y[..p] + (y[p..q] + y[q..]);
    BitRegisterConcat(c, x[..p], x[p..q] + x[q..]);
    BitRegisterConcat(c, y[..p], y[p..q] + y[q..]);
    BitRegisterConcat(d, x[p..q], x[q..]);
    BitRegisterConcat(d, y[p..q], y[q..]);
    BitRegisterInjective(BitRegister(d, x[p..q]), BitRegister(d, y[p..q]), x[q..]);
    WindowDetected(d, x[p..q], y[p..q]);
  }

  // ---------- Octets and bits ----------

  lemma OddHalf(x: Reg, y: Reg)
    requires Odd(x) == Odd(y) && Half(x) == Half(y)
    ensures x == y
  {
  }

  lemma {:induction false} LowBitsInjective(x: Reg, y: Reg, n: nat)
    requires LowBits(x, n) == LowBits(y, n) && Halves(x, n) == Halves(y, n)
    ensures x == y
    decreases n
  {
    hide Odd;
    hide Half;
    if n > 0 {
      assert LowBits(x, n)[0] == LowBits(y, n)[0];
      assert LowBits(x, n)[1..] == LowBits(Half(x), n - 1) && LowBits(y, n)[1..] == LowBits(Half(y), n - 1);
      LowBitsInjective(Half(x), Half(y), n - 1);
      OddHalf(x, y);
    }
  }

  lemma LowInjective(a: bv8, b: bv8)
    requires Low(a) == Low(b)
    ensures a == b
  {
  }

  lemma OctetBitsInjective(a: bv8, b: bv8)
    requires OctetBits(a) == OctetBits(b)
    ensures a == b
  {
    hide Low;
    hide Halves;
    hide LowBits;
    HalvesOfOctet(a);
    HalvesOfOctet(b);
    LowBitsInjective(Low(a), Low(b), 8);
    LowInjective(a, b);
  }

  lemma {:induction false} BitsOfInjective(s: Bytes, t: Bytes)
    requires BitsOf(s) == BitsOf(t)
    ensures s == t
    decreases |s|
  {
    hide OctetBits;
    assert 8 * |s| == 8 * |t|;
    if s != [] {
      assert OctetBits(s[0]) == BitsOf(s)[..8] && OctetBits(t[0]) == BitsOf(t)[..8];
      assert BitsOf(s[1..]) == BitsOf(s)[8..] && BitsOf(t[1..]) == BitsOf(t)[8..];
      OctetBitsInjective(s[0], t[0]);
      BitsOfInjective(s[1..], t[1..]);
      assert s == [s[0]] + s[1..] && t == [t[0]] + t[1..];
    }
  }

  lemma {:induction false} BitsOfConcat(s: Bytes, t: Bytes)
    ensures BitsOf(s + t) == BitsOf(s) + BitsOf(t)
    decreases |s|
  {
    hide OctetBits;
    if s == [] {
      assert s + t == t;
    } else {
      assert (s + t)[1..] == s[1..] + t;
      BitsOfConcat(s[1..], t);
    }
  }

  lemma ChecksumIsRegister(s: Bytes, t: Bytes)
    ensures Crc32(s) == Crc32(t) <==> Register(INITIAL, s) == Register(INITIAL, t)
  {
    hide Register;
    ComplementInjective(Register(INITIAL, s), Register(INITIAL, t));
    hide Complement;
  }

  lemma ComplementInjective(c: Reg, d: Reg)
    ensures Complement(c).bits == Complement(d).bits <==> c == d
  {
  }

  /**
   The error detection theorem: messages of one length that agree, as bit strings, outside the
   window [p, q) of at most 32 bits have the same checksum only when they are the same message.
   */
  lemma ThirtyTwoBitBurst(s: Bytes, t: Bytes, p: nat, q: nat)
    requires |s| == |t| && p <= q <= 8 * |s| && q - p <= 32
    requires BitsOf(s)[..p] == BitsOf(t)[..p] && BitsOf(s)[q..] == BitsOf(t)[q..]
    ensures Crc32(s) == Crc32(t) <==> s == t
  {
    hide Crc32;
    hide Register;
    hide BitRegister;
    hide BitsOf;
    if Crc32(s) == Crc32(t) {
      ChecksumIsRegister(s, t);
      RegisterIsBits(INITIAL, s);
      RegisterIsBits(INITIAL, t);
      BitBurst(INITIAL, BitsOf(s), BitsOf(t), p, q);
      BitsOfInjective(s, t);
    }
  }

  /** The same for a window of four octets. */
  lemma FourOctetBurst(s: Bytes, t: Bytes, i: nat, j: nat)
    requires |s| == |t| && i <= j <= |s| && j - i <= 4
    requires s[..i] == t[..i] && s[j..] == t[j..]
    ensures Crc32(s) == Crc32(t) <==> s == t
  {
    hide Crc32;
    hide BitsOf;
    BitsOfConcat(s[..i], s[i..]);
    BitsOfConcat(t[..i], t[i..]);
    BitsOfConcat(s[..j], s[j..]);
    BitsOfConcat(t[..j], t[j..]);
    assert s[..i] + s[i..] == s == s[..j] + s[j..] && t[..i] + t[i..] == t == t[..j] + t[j..];
    ThirtyTwoBitBurst(s, t, 8 * i, 8 * j);
  }
}
