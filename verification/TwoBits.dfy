/**
 Frames damaged in two bits, however far apart, in the octets that the checksum covers, in the checksum, or
 one in each.
 */
module TwoBits {
  import opened Words
  import opened Frames
  import opened Crc
  import opened Bursts
  import opened Codec
  import opened Corruption
  import opened ShiftOrder

  // ---------- Messages that differ in one or two bits ----------

  /** The n bits of which the i-th and the j-th are set, as far as there are such. */
  function Pair(n: nat, i: int, j: int): Bits {
    XorBits(Unit(n, i), Unit(n, j))
  }

  lemma IsPair(e: Bits, i: int, j: int)
    requires i < j && forall k :: 0 <= k < |e| ==> (e[k] <==> k == i || k == j)
    ensures e == Pair(|e|, i, j)
  {
  }

  lemma PairOfOne(n: nat, i: int, j: int)
    ensures i < 0 ==> Pair(n, i, j) == Unit(n, j)
    ensures j >= n ==> Pair(n, i, j) == Unit(n, i)
  {
  }

  lemma {:induction false} LowBitsLinear(x: Reg, y: Reg, n: nat)
    ensures LowBits(Add(x, y), n) == XorBits(LowBits(x, n), LowBits(y, n))
    decreases n
  {
    hide Add, Odd, Half;
    if n > 0 {
      OddLinear(x, y);
      HalfLinear(x, y);
      LowBitsLinear(Half(x), Half(y), n - 1);
    }
  }

  lemma OctetBitsLinear(a: bv8, b: bv8)
    ensures OctetBits(Change(a, b)) == XorBits(OctetBits(a), OctetBits(b))
  {
    hide Add, Low, LowBits;
    AddLow(a, b);
    LowBitsLinear(Low(a), Low(b), 8);
  }

  lemma XorBitsConcat(a: Bits, b: Bits, c: Bits, d: Bits)
    requires |a| == |b| && |c| == |d|
    ensures XorBits(a + c, b + d) == XorBits(a, b) + XorBits(c, d)
  {
  }

  lemma XorParts(s: Bytes, t: Bytes)
    requires |s| == |t| && s != []
    ensures Xor(s, t)[0] == Change(s[0], t[0]) && Xor(s, t)[1..] == Xor(s[1..], t[1..])
  {
  }

  lemma {:induction false} BitsOfXor(s: Bytes, t: Bytes)
    requires |s| == |t|
    ensures BitsOf(Xor(s, t)) == XorBits(BitsOf(s), BitsOf(t))
    decreases |s|
  {
    hide OctetBits, Xor, XorBits, Change;
    if s != [] {
      XorParts(s, t);
      OctetBitsLinear(s[0], t[0]);
      BitsOfXor(s[1..], t[1..]);
      XorBitsConcat(OctetBits(s[0]), OctetBits(t[0]), BitsOf(s[1..]), BitsOf(t[1..]));
    }
  }

  lemma RegisterOfXor(s: Bytes, t: Bytes)
    requires |s| == |t|
    ensures Register(ZERO, Xor(s, t)) == BitRegister(ZERO, XorBits(BitsOf(s), BitsOf(t)))
  {
    hide Xor, XorBits, Register, BitRegister, BitsOf;
    RegisterIsBits(ZERO, Xor(s, t));
    BitsOfXor(s, t);
  }

  lemma EmptyFirst(s: Bytes)
    ensures [] + s == s
  {
  }

  /** The difference of two checksums depends on the changed bits alone. */
  lemma ChecksumDifference(s: Bytes, t: Bytes)
    requires |s| == |t|
    ensures Add(Reg(Crc32(s)), Reg(Crc32(t))) == BitRegister(ZERO, XorBits(BitsOf(s), BitsOf(t)))
  {
    hide Xor, XorBits, Add, Crc32, Register, BitRegister, BitsOf;
    TailDifference([], s, t);
    EmptyFirst(s);
    EmptyFirst(t);
    RegisterOfXor(s, t);
  }

  lemma OneBitDifference(s: Bytes, t: Bytes, i: nat)
    requires |s| == |t| && i < 8 * |s| && XorBits(BitsOf(s), BitsOf(t)) == Unit(8 * |s|, i)
    ensures Add(Reg(Crc32(s)), Reg(Crc32(t))) == Shifts(ONE, 8 * |s| - i)
  {
    hide Add, Crc32, BitRegister, BitsOf, Shifts, Unit;
    ChecksumDifference(s, t);
    UnitRegister(ZERO, 8 * |s|, i);
  }

  lemma PairRegister(n: nat, i: nat, j: nat)
    requires i < n && j < n
    ensures BitRegister(ZERO, Pair(n, i, j)) == Add(Shifts(ONE, n - i), Shifts(ONE, n - j))
  {
    hide Add, BitRegister, XorBits, Shifts, Unit;
    AddSelf(ZERO, ZERO);
    BitRegisterLinear(ZERO, ZERO, Unit(n, i), Unit(n, j));
    UnitRegister(ZERO, n, i);
    UnitRegister(ZERO, n, j);
  }

  lemma TwoBitDifference(s: Bytes, t: Bytes, i: nat, j: nat)
    requires |s| == |t| && i < j < 8 * |s| <= 2192
    requires XorBits(BitsOf(s), BitsOf(t)) == Pair(8 * |s|, i, j)
    ensures Crc32(s) != Crc32(t)
  {
    hide Add, Crc32, BitRegister, BitsOf, Shifts, XorBits, Pair;
    var n := 8 * |s|;
    ChecksumDifference(s, t);
    PairRegister(n, i, j);
    if Crc32(s) == Crc32(t) {
      AddSelf(Reg(Crc32(s)), Reg(Crc32(t)));
      AddSelf(Shifts(ONE, n - i), Shifts(ONE, n - j));
      ShiftsTwice(ONE, j - i, n - j);
      ShiftsInjective(Shifts(ONE, j - i), ONE, n - j);
      NoReturn(j - i);
    }
  }

  // ---------- One bit of the checksum field ----------

  lemma EvenSingle(x: Reg)
    requires !Odd(x) && AtMostOneBit(Half(x))
    ensures AtMostOneBit(x)
  {
  }

  lemma LowestSingle(x: Reg)
    requires Half(x) == ZERO
    ensures AtMostOneBit(x)
  {
  }

  lemma ZeroFacts()
    ensures AtMostOneBit(ZERO) && !Odd(ZERO) && Half(ZERO) == ZERO
  {
  }

  /** A register of n bits of which only the k-th may be set, and none if k is negative. */
  lemma {:induction false} LoneBit(x: Reg, n: nat, k: int)
    requires Halves(x, n) == ZERO
    requires forall i :: 0 <= i < n ==> LowBits(x, n)[i] ==> i == k
    ensures AtMostOneBit(x) && (k < 0 ==> x == ZERO)
    decreases n
  {
    hide Odd, Half, AtMostOneBit;
    ZeroFacts();
    if n > 0 {
      var low, rest := LowBits(x, n), LowBits(Half(x), n - 1);
      assert forall i :: 0 <= i < n - 1 ==> rest[i] == low[i + 1];
      assert low[0] == Odd(x);
      LoneBit(Half(x), n - 1, k - 1);
      if Odd(x) {
        assert k == 0;
        LowestSingle(x);
      } else {
        EvenSingle(x);
        if k < 0 {
          OddHalf(x, ZERO);
        }
      }
    }
  }

  lemma LowZero(b: bv8)
    requires Low(b) == ZERO
    ensures b == 0
  {
  }

  lemma LoneBitOfOctet(b: bv8, k: int)
    requires forall i :: 0 <= i < 8 ==> OctetBits(b)[i] ==> i == k
    ensures AtMostOneBit(Low(b)) && (k < 0 || k >= 8 ==> b == 0)
  {
    hide Low, LowBits, Halves, AtMostOneBit;
    HalvesOfOctet(b);
    assert OctetBits(b) == LowBits(Low(b), 8);
    LoneBit(Low(b), 8, k);
    if k < 0 || k >= 8 {
      LoneBit(Low(b), 8, -1);
      LowZero(b);
    }
  }

  lemma SingleFirst(b: bv8)
    requires AtMostOneBit(Low(b))
    ensures AtMostOneBit(Reg(Join32(b, 0, 0, 0)))
  {
  }

  lemma SingleSecond(b: bv8)
    requires AtMostOneBit(Low(b))
    ensures AtMostOneBit(Reg(Join32(0, b, 0, 0)))
  {
  }

  lemma SingleThird(b: bv8)
    requires AtMostOneBit(Low(b))
    ensures AtMostOneBit(Reg(Join32(0, 0, b, 0)))
  {
  }

  lemma SingleFourth(b: bv8)
    requires AtMostOneBit(Low(b))
    ensures AtMostOneBit(Reg(Join32(0, 0, 0, b)))
  {
  }

  lemma BitsOfFour(s: Bytes, q: nat)
    requires |s| == 4 && q < 4
    ensures BitsOf(s)[8 * q..8 * q + 8] == OctetBits(s[q])
  {
    hide BitsOf, OctetBits;
    assert s == s[..q] + ([s[q]] + s[q + 1..]);
    BitsOfConcat(s[..q], [s[q]] + s[q + 1..]);
    BitsOfConcat([s[q]], s[q + 1..]);
    BitsOfOne(s[q]);
  }

  lemma BitsOfOne(b: bv8)
    ensures BitsOf([b]) == OctetBits(b)
  {
    hide OctetBits;
    assert [b][1..] == [];
  }

  lemma LoneBitAt(s: Bytes, k: nat, q: nat)
    requires |s| == 4 && q < 4 && BitsOf(s) == Unit(32, k)
    ensures AtMostOneBit(Low(s[q])) && (q != k / 8 ==> s[q] == 0)
  {
    hide BitsOf, OctetBits, AtMostOneBit, Low;
    BitsOfFour(s, q);
    LoneBitOfOctet(s[q], k - 8 * q);
  }

  lemma LoneBitOfWord(s: Bytes, k: nat)
    requires |s| == 4 && k < 32 && BitsOf(s) == Unit(32, k)
    ensures AtMostOneBit(Reg(Join32(s[0], s[1], s[2], s[3])))
  {
    hide BitsOf, AtMostOneBit, Low, Join32, Unit;
    LoneBitAt(s, k, 0);
    LoneBitAt(s, k, 1);
    LoneBitAt(s, k, 2);
    LoneBitAt(s, k, 3);
    SingleFirst(s[0]);
    SingleSecond(s[1]);
    SingleThird(s[2]);
    SingleFourth(s[3]);
  }

  /** The checksum fields differ as the checksums do. */
  lemma FieldDifference(wire: Bytes, bytes: Bytes)
    requires SelfChecked(wire) && SelfChecked(bytes) && |wire| == |bytes| >= 4
    ensures var m := |wire| - 4;
            var x := Xor(wire[m..], bytes[m..]);
            Add(Reg(Crc32(wire[..m])), Reg(Crc32(bytes[..m]))) == Reg(Join32(x[0], x[1], x[2], x[3]))
  {
    hide Crc32, Add, First32, Second32, Third32, Fourth32, Join32, Change, SelfChecked;
    var m := |wire| - 4;
    var c, d := Crc32(wire[..m]), Crc32(bytes[..m]);
    ChecksumOctets(wire);
    ChecksumOctets(bytes);
    FirstOfSum(c, d);
    SecondOfSum(c, d);
    ThirdOfSum(c, d);
    FourthOfSum(c, d);
    XorIsChange(wire[m..], bytes[m..], 0);
    XorIsChange(wire[m..], bytes[m..], 1);
    XorIsChange(wire[m..], bytes[m..], 2);
    XorIsChange(wire[m..], bytes[m..], 3);
    JoinSplit32(Add(Reg(c), Reg(d)).bits);
  }

  // ---------- The theorem about frames ----------

  /** As bit strings, wire and bytes differ in the bits i and j and in no others. */
  predicate DiffersInTwoBits(wire: Bytes, bytes: Bytes, i: nat, j: nat) {
    && |bytes| == |wire| && i < j < 8 * |wire|
    && forall k :: 0 <= k < 8 * |wire| ==> (BitsOf(wire)[k] != BitsOf(bytes)[k] <==> k == i || k == j)
  }

  /** The bits before and in the checksum field. */
  /** The changed bits before the m-th octet, and after it. */
  lemma SplitBits(wire: Bytes, bytes: Bytes, i: nat, j: nat, m: nat)
    requires DiffersInTwoBits(wire, bytes, i, j) && m <= |wire|
    ensures XorBits(BitsOf(wire[..m]), BitsOf(bytes[..m])) == Pair(8 * m, i, j)
    ensures XorBits(BitsOf(wire[m..]), BitsOf(bytes[m..])) == Pair(8 * (|wire| - m), i - 8 * m, j - 8 * m)
  {
    hide BitsOf, Pair;
    BitsOfHalves(wire, m);
    BitsOfHalves(bytes, m);
    IsPair(XorBits(BitsOf(wire[..m]), BitsOf(bytes[..m])), i, j);
    IsPair(XorBits(BitsOf(wire[m..]), BitsOf(bytes[m..])), i - 8 * m, j - 8 * m);
  }

  lemma BitsOfHalves(s: Bytes, m: nat)
    requires m <= |s|
    ensures forall k :: 0 <= k < 8 * m ==> BitsOf(s)[k] == BitsOf(s[..m])[k]
    ensures forall k :: 0 <= k < 8 * (|s| - m) ==> BitsOf(s)[8 * m + k] == BitsOf(s[m..])[k]
  {
    hide BitsOf;
    assert s == s[..m] + s[m..];
    BitsOfConcat(s[..m], s[m..]);
  }

  lemma SameBytes(s: Bytes, t: Bytes)
    requires |s| == |t|
    ensures s == t <==> XorBits(BitsOf(s), BitsOf(t)) == Unit(8 * |s|, -1)
  {
    hide BitsOf;
    var e := XorBits(BitsOf(s), BitsOf(t));
    if e == Unit(8 * |s|, -1) {
      assert forall k :: 0 <= k < 8 * |s| ==> (e[k] <==> BitsOf(s)[k] != BitsOf(t)[k]);
      BitsOfInjective(s, t);
    }
  }

  lemma PairOfNone(n: nat, i: int, j: int)
    requires i < j && (i >= n || j < 0)
    ensures Pair(n, i, j) == Unit(n, -1)
  {
  }

  lemma PairIsSet(n: nat, i: nat, j: nat)
    requires i < j < n
    ensures Pair(n, i, j) != Unit(n, -1)
  {
    assert Pair(n, i, j)[i];
  }

  lemma TwoBitsInRange(wire: Bytes, bytes: Bytes, i: nat, j: nat)
    requires DiffersInTwoBits(wire, bytes, i, j)
    ensures |bytes| == |wire| && i < j < 8 * |wire|
  {
  }

  lemma SelfCheckedLength(bytes: Bytes)
    requires SelfChecked(bytes)
    ensures |bytes| >= 4
  {
  }

  lemma SelfCheckedSame(wire: Bytes, bytes: Bytes)
    requires SelfChecked(wire) && SelfChecked(bytes) && |wire| == |bytes| >= 4
    ensures wire[|wire| - 4..] == bytes[|wire| - 4..] ==> Crc32(wire[..|wire| - 4]) == Crc32(bytes[..|wire| - 4])
    ensures wire[..|wire| - 4] == bytes[..|wire| - 4] ==> wire == bytes
  {
    hide Crc32, First32, Second32, Third32, Fourth32;
    var m := |wire| - 4;
    if wire[m..] == bytes[m..] {
      assert forall k :: m <= k < |wire| ==> wire[k] == wire[m..][k - m] == bytes[m..][k - m] == bytes[k];
      ChecksumOctets(wire);
      ChecksumOctets(bytes);
      JoinSplit32(Crc32(wire[..m]));
      JoinSplit32(Crc32(bytes[..m]));
    }
  }

  /** Two damaged bits never leave the checksum right. */
  lemma NotBothSelfChecked(wire: Bytes, bytes: Bytes, i: nat, j: nat)
    requires SelfChecked(wire) && DiffersInTwoBits(wire, bytes, i, j) && |wire| <= 278
    ensures !SelfChecked(bytes)
  {
    hide BitsOf, Crc32, Add, SelfChecked, AtMostOneBit, Shifts, Join32, Xor, XorBits, Unit, Pair, DiffersInTwoBits;
    SelfCheckedLength(wire);
    TwoBitsInRange(wire, bytes, i, j);
    if SelfChecked(bytes) {
      var m := |wire| - 4;
      var n := 8 * m;
      var a, b, x, y := wire[..m], bytes[..m], wire[m..], bytes[m..];
      SplitBits(wire, bytes, i, j, m);
      PairOfOne(n, i, j);
      PairOfOne(32, i - n, j - n);
      SelfCheckedSame(wire, bytes);
      if j < n {
        PairOfNone(32, i - n, j - n);
        SameBytes(x, y);
        TwoBitDifference(a, b, i, j);
      } else if i < n {
        OneBitDifference(a, b, i);
        FieldDifference(wire, bytes);
        BitsOfXor(x, y);
        LoneBitOfWord(Xor(x, y), j - n);
        NoSingleBit(n - i);
      } else {
        PairOfNone(n, i, j);
        SameBytes(a, b);
        SplitBits(wire, bytes, i, j, 0);
        SameBytes(wire[0..], bytes[0..]);
        PairIsSet(8 * |wire|, i, j);
      }
    }
  }

  /** Any two bits of an encoded frame, at any distance and on either side of the checksum, are noticed. */
  lemma TwoBitCorruption(frame: Frame, bytes: Bytes, i: nat, j: nat)
    requires Encodable(frame) && DiffersInTwoBits(Wire(frame), bytes, i, j)
    ensures Decode(bytes).Rejected?
  {
    hide Encode, Decode, SelfChecked, BitsOf;
    EncodableFacts(frame);
    DecodeWire(frame);
    DecodedIsSelfChecked(Wire(frame));
    NotBothSelfChecked(Wire(frame), bytes, i, j);
    if Decode(bytes).Decoded? {
      DecodedIsSelfChecked(bytes);
    }
  }
}
