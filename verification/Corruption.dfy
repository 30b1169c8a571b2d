/**
 Corrupted frames: 32 consecutive bits of what the checksum covers, and four octets anywhere.

 Before the checksum field, and inside it, every such corruption is rejected. Where the window
 straddles the last covered octets and the checksum field, the field is big-endian while the register
 is reflected, and the usual burst argument fails. It turns out that exactly one pattern slips through:
 61 d8 over the last two covered octets together with f4 ee over the first two of the checksum.
 */
module Corruption {
  import opened Words
  import opened Frames
  import opened Crc
  import opened Bursts
  import opened Codec

  // ---------- Undoing shifts ----------

  function Unshift(c: Reg): Reg {
    Reg((c.bits << 1) ^ (if c.bits & 0x8000_0000 == 0 then 0 else 0xDB71_0641))
  }

  function Unshift8(c: Reg): Reg {
    Unshift(Unshift(Unshift(Unshift(Unshift(Unshift(Unshift(Unshift(c))))))))
  }

  function Unshift24(c: Reg): Reg {
    Unshift8(Unshift8(Unshift8(c)))
  }

  lemma UnshiftShift(c: Reg)
    ensures Unshift(Shift(c)) == c
  {
  }

  lemma Unshift8Shift8(c: Reg)
    ensures Unshift8(Shift8(c)) == c
  {
    hide Shift, Unshift;
    UnshiftShift(c);
    var c1 := Shift(c);
    UnshiftShift(c1);
    var c2 := Shift(c1);
    UnshiftShift(c2);
    var c3 := Shift(c2);
    UnshiftShift(c3);
    var c4 := Shift(c3);
    UnshiftShift(c4);
    var c5 := Shift(c4);
    UnshiftShift(c5);
    var c6 := Shift(c5);
    UnshiftShift(c6);
    UnshiftShift(Shift(c6));
  }

  function Double(c: Reg): Reg {
    Reg(c.bits << 1)
  }

  function TopBit(c: Reg): Reg {
    Reg(c.bits >> 31)
  }

  predicate TopSet(c: Reg) {
    Odd(TopBit(c))
  }

  const UNPOLY := Reg(0xDB71_0641)

  lemma UnshiftCases(c: Reg)
    ensures Unshift(c) == if TopSet(c) then Add(Double(c), UNPOLY) else Double(c)
  {
  }

  lemma DoubleLinear(c: Reg, d: Reg)
    ensures Double(Add(c, d)) == Add(Double(c), Double(d))
  {
  }

  lemma TopBitLinear(c: Reg, d: Reg)
    ensures TopBit(Add(c, d)) == Add(TopBit(c), TopBit(d))
  {
  }

  lemma TopSetLinear(c: Reg, d: Reg)
    ensures TopSet(Add(c, d)) <==> TopSet(c) != TopSet(d)
  {
    hide Add, TopBit, Odd;
    TopBitLinear(c, d);
    OddLinear(TopBit(c), TopBit(d));
  }

  lemma UnshiftLinear(c: Reg, d: Reg)
    ensures Unshift(Add(c, d)) == Add(Unshift(c), Unshift(d))
  {
    hide Unshift, Add, Double, TopSet;
    UnshiftCases(c);
    UnshiftCases(d);
    UnshiftCases(Add(c, d));
    DoubleLinear(c, d);
    TopSetLinear(c, d);
    var x, y := Double(c), Double(d);
    if TopSet(c) && TopSet(d) {
      AddSwap(x, UNPOLY, y, UNPOLY);
      AddSelf(UNPOLY, UNPOLY);
      AddZero(Add(x, y));
    } else if TopSet(c) {
      AddAssociates(x, UNPOLY, y);
      AddCommutes(UNPOLY, y);
      AddAssociates(x, y, UNPOLY);
    } else if TopSet(d) {
      AddAssociates(x, y, UNPOLY);
    }
  }

  lemma Unshift8Linear(c: Reg, d: Reg)
    ensures Unshift8(Add(c, d)) == Add(Unshift8(c), Unshift8(d))
  {
    hide Unshift, Add;
    UnshiftLinear(c, d);
    var c1, d1 := Unshift(c), Unshift(d);
    UnshiftLinear(c1, d1);
    var c2, d2 := Unshift(c1), Unshift(d1);
    UnshiftLinear(c2, d2);
    var c3, d3 := Unshift(c2), Unshift(d2);
    UnshiftLinear(c3, d3);
    var c4, d4 := Unshift(c3), Unshift(d3);
    UnshiftLinear(c4, d4);
    var c5, d5 := Unshift(c4), Unshift(d4);
    UnshiftLinear(c5, d5);
    var c6, d6 := Unshift(c5), Unshift(d5);
    UnshiftLinear(c6, d6);
    UnshiftLinear(Unshift(c6), Unshift(d6));
  }

  // ---------- Tails of up to three octets ----------

  lemma TailOfOne(a: bv8)
    requires Fourth32(Absorb(ZERO, a).bits) == 0
    ensures a == 0
  {
  }

  lemma TailOfTwo(a: bv8, b: bv8)
    requires var d := Absorb(Absorb(ZERO, a), b).bits; Third32(d) == 0 && Fourth32(d) == 0
    ensures (a == 0 && b == 0) || (a == 0x61 && b == 0xD8)
  {
  }

  lemma TheTailOfTwo()
    ensures Absorb(Absorb(ZERO, 0x61), 0xD8) == Reg(0xF4EE_0000)
  {
  }

  function High(r: bv8): Reg {
    Reg((r as bv32) << 24)
  }

  function Top(c: Reg): bv8 {
    (c.bits >> 24) as bv8
  }

  function LowHalf(r: bv8): bv8 {
    (if r & 1 == 0 then 0 else 0x75) ^ (if r & 2 == 0 then 0 else 0xEA) ^
    (if r & 4 == 0 then 0 else 0x0E) ^ (if r & 8 == 0 then 0 else 0x1C)
  }

  function HighHalf(r: bv8): bv8 {
    (if r & 16 == 0 then 0 else 0x38) ^ (if r & 32 == 0 then 0 else 0x71) ^
    (if r & 64 == 0 then 0 else 0xE2) ^ (if r & 128 == 0 then 0 else 0x1F)
  }

  lemma UnwindLowHalf(r: bv8)
    requires r & 0xF0 == 0
    ensures Top(Unshift24(High(r))) == LowHalf(r)
  {
  }

  lemma UnwindHighHalf(r: bv8)
    requires r & 0x0F == 0
    ensures Top(Unshift24(High(r))) == HighHalf(r)
  {
  }

  lemma HalvesIndependent(r: bv8)
    requires LowHalf(r & 0x0F) ^ HighHalf(r & 0xF0) == 0
    ensures r == 0
  {
  }

  lemma SplitHigh(r: bv8)
    ensures High(r) == Add(High(r & 0x0F), High(r & 0xF0))
    ensures (r & 0x0F) & 0xF0 == 0 && (r & 0xF0) & 0x0F == 0
  {
  }

  lemma TopOfSum(c: Reg, d: Reg)
    ensures Top(Add(c, d)) == Top(c) ^ Top(d)
  {
  }

  /** Unwound three octets, a nonzero top octet leaves something in the top octet. */
  lemma Unwind(r: bv8)
    requires Top(Unshift24(High(r))) == 0
    ensures r == 0
  {
    hide Unshift8, High, Top, Add, LowHalf, HighHalf;
    var l, h := High(r & 0x0F), High(r & 0xF0);
    SplitHigh(r);
    Unshift8Linear(l, h);
    Unshift8Linear(Unshift8(l), Unshift8(h));
    Unshift8Linear(Unshift8(Unshift8(l)), Unshift8(Unshift8(h)));
    TopOfSum(Unshift24(l), Unshift24(h));
    UnwindLowHalf(r & 0x0F);
    UnwindHighHalf(r & 0xF0);
    HalvesIndependent(r);
  }

  function Middle(b: bv8): Reg {
    Reg((b as bv32) << 8)
  }

  function Upper(c: bv8): Reg {
    Reg((c as bv32) << 16)
  }

  lemma ShiftMiddle(b: bv8)
    ensures Shift8(Middle(b)) == Low(b)
  {
  }

  lemma ShiftUpper(c: bv8)
    ensures Shift8(Upper(c)) == Middle(c)
  {
  }

  /** Three octets absorbed one by one are three octets absorbed at once. */
  lemma AbsorbThree(a: bv8, b: bv8, c: bv8)
    ensures Absorb(Absorb(Absorb(ZERO, a), b), c) == Shift8(Shift8(Shift8(Add(Add(Low(a), Middle(b)), Upper(c)))))
  {
    hide Shift8, Add, Low, Middle, Upper;
    AddZero(Low(a));
    var s := Shift8(Low(a));
    Shift8Linear(Low(a), Middle(b));
    ShiftMiddle(b);
    Shift8Linear(Add(Low(a), Middle(b)), Upper(c));
    ShiftUpper(c);
    Shift8Linear(Add(s, Low(b)), Middle(c));
    ShiftMiddle(c);
  }

  lemma TopOfThree(a: bv8, b: bv8, c: bv8)
    ensures Top(Add(Add(Low(a), Middle(b)), Upper(c))) == 0
  {
  }

  lemma OnlyTop(d: Reg)
    requires Second32(d.bits) == 0 && Third32(d.bits) == 0 && Fourth32(d.bits) == 0
    ensures d == High(First32(d.bits))
  {
  }

  lemma HighZero()
    ensures High(0) == ZERO
  {
  }

  lemma TailOfThree(a: bv8, b: bv8, c: bv8)
    requires var d := Absorb(Absorb(Absorb(ZERO, a), b), c).bits;
             Second32(d) == 0 && Third32(d) == 0 && Fourth32(d) == 0
    ensures Absorb(Absorb(Absorb(ZERO, a), b), c) == ZERO
  {
    hide Shift8, Unshift8, Add, Low, Middle, Upper, High, Top, Absorb, Second32, Third32, Fourth32;
    var d := Absorb(Absorb(Absorb(ZERO, a), b), c);
    var e := Add(Add(Low(a), Middle(b)), Upper(c));
    AbsorbThree(a, b, c);
    Unshift8Shift8(Shift8(Shift8(e)));
    Unshift8Shift8(Shift8(e));
    Unshift8Shift8(e);
    TopOfThree(a, b, c);
    OnlyTop(d);
    Unwind(First32(d.bits));
    HighZero();
  }

  // ---------- Checksums of messages with different tails ----------

  lemma TailDifference(p: Bytes, a: Bytes, b: Bytes)
    requires |a| == |b|
    ensures Add(Reg(Crc32(p + a)), Reg(Crc32(p + b))) == Register(ZERO, Xor(a, b))
  {
    hide Register, Add, Complement;
    RegisterConcat(INITIAL, p, a);
    RegisterConcat(INITIAL, p, b);
    var c := Register(INITIAL, p);
    RegisterLinear(c, c, a, b);
    AddSelf(c, c);
    var x, y := Register(c, a), Register(c, b);
    ComplementIsAdd(x);
    ComplementIsAdd(y);
    AddSwap(x, INITIAL, y, INITIAL);
    AddSelf(INITIAL, INITIAL);
    AddZero(Add(x, y));
  }

  lemma FirstOfSum(v: bv32, w: bv32)
    ensures First32(Add(Reg(v), Reg(w)).bits) == Change(First32(v), First32(w))
  {
  }

  lemma SecondOfSum(v: bv32, w: bv32)
    ensures Second32(Add(Reg(v), Reg(w)).bits) == Change(Second32(v), Second32(w))
  {
  }

  lemma ThirdOfSum(v: bv32, w: bv32)
    ensures Third32(Add(Reg(v), Reg(w)).bits) == Change(Third32(v), Third32(w))
  {
  }

  lemma FourthOfSum(v: bv32, w: bv32)
    ensures Fourth32(Add(Reg(v), Reg(w)).bits) == Change(Fourth32(v), Fourth32(w))
  {
  }

  function Change(a: bv8, b: bv8): bv8 {
    a ^ b
  }

  lemma NoChange(a: bv8, b: bv8)
    ensures Change(a, b) == 0 <==> a == b
  {
  }

  lemma ChangeIs(a: bv8, b: bv8, c: bv8)
    ensures Change(a, b) == c <==> b == a ^ c
  {
    if Change(a, b) == c {
      assert a ^ (a ^ b) == b;
    }
    if b == a ^ c {
      assert a ^ (a ^ c) == c;
    }
  }

  lemma XorIsChange(a: Bytes, b: Bytes, i: nat)
    requires |a| == |b| && i < |a|
    ensures Xor(a, b)[i] == Change(a[i], b[i])
  {
  }

  // ---------- The theorem about frames ----------

  /** bytes differs from wire only inside the four octets from i. */
  predicate DiffersInWindow(wire: Bytes, bytes: Bytes, i: nat) {
    |bytes| == |wire| && i + 4 <= |wire| && bytes[..i] == wire[..i] && bytes[i + 4..] == wire[i + 4..]
  }

  /** The one pattern that keeps the checksum right. */
  predicate IsLookalike(wire: Bytes, bytes: Bytes)
    requires |wire| >= 6
  {
    var n := |wire|;
    DiffersInWindow(wire, bytes, n - 6) &&
    bytes[n - 6] == wire[n - 6] ^ 0x61 && bytes[n - 5] == wire[n - 5] ^ 0xD8 &&
    bytes[n - 4] == wire[n - 4] ^ 0xF4 && bytes[n - 3] == wire[n - 3] ^ 0xEE
  }

  /** The checksum field of bytes is the checksum of everything before it. */
  predicate SelfChecked(bytes: Bytes) {
    |bytes| >= 4 && AppendU32(bytes[..|bytes| - 4], Crc32(bytes[..|bytes| - 4])) == bytes
  }

  lemma DecodedIsSelfChecked(bytes: Bytes)
    requires Decode(bytes).Decoded?
    ensures SelfChecked(bytes)
  {
    hide Crc32, Decode, AppendU32, Header;
    WireOfDecoded(bytes);
    var covered := Covered(Decode(bytes).frame);
    AppendLength(covered, Crc32(covered));
  }

  lemma AppendLength(output: Bytes, value: bv32)
    ensures |AppendU32(output, value)| == |output| + 4 && AppendU32(output, value)[..|output|] == output
  {
  }

  lemma ChecksumOctets(bytes: Bytes)
    requires SelfChecked(bytes)
    ensures var n, c := |bytes| - 4, Crc32(bytes[..|bytes| - 4]);
            && bytes[n] == First32(c) && bytes[n + 1] == Second32(c)
            && bytes[n + 2] == Third32(c) && bytes[n + 3] == Fourth32(c)
  {
    hide Crc32, First32, Second32, Third32, Fourth32;
  }

  lemma WindowInPrefix<T>(a: seq<T>, b: seq<T>, i: nat, m: nat)
    requires |a| == |b| && i + 4 <= m <= |a| && a[..i] == b[..i] && a[i + 4..] == b[i + 4..]
    ensures a[..m][..i] == b[..m][..i] && a[..m][i + 4..] == b[..m][i + 4..]
    ensures forall k :: m <= k < |a| ==> a[k] == b[k]
  {
    assert a[..m][..i] == a[..i] && b[..m][..i] == b[..i];
    assert forall k :: i + 4 <= k < |a| ==> a[k] == a[i + 4..][k - i - 4] && b[k] == b[i + 4..][k - i - 4];
  }

  lemma WindowOverlaps<T>(a: seq<T>, b: seq<T>, i: nat, m: nat)
    requires |a| == |b| && i <= m <= |a| && i + 4 <= |a| && a[..i] == b[..i] && a[i + 4..] == b[i + 4..]
    ensures a[..m] == a[..i] + a[i..m] && b[..m] == a[..i] + b[i..m]
    ensures forall k :: i + 4 <= k < |a| ==> a[k] == b[k]
    ensures forall k :: 0 <= k < i ==> a[k] == b[k]
  {
    assert forall k :: 0 <= k < i ==> a[k] == a[..i][k] && b[k] == b[..i][k];
    assert forall k :: i + 4 <= k < |a| ==> a[k] == a[i + 4..][k - i - 4] && b[k] == b[i + 4..][k - i - 4];
  }

  /** Windows that do not straddle. */
  lemma OneSided(wire: Bytes, bytes: Bytes, i: nat)
    requires SelfChecked(wire) && SelfChecked(bytes) && DiffersInWindow(wire, bytes, i)
    requires i + 4 <= |wire| - 4 || i == |wire| - 4
    ensures bytes == wire
  {
    hide Crc32, First32, Second32, Third32, Fourth32;
    var m := |wire| - 4;
    if i < m {
      ChecksumOctets(wire);
      ChecksumOctets(bytes);
      WindowInPrefix(wire, bytes, i, m);
      JoinSplit32(Crc32(wire[..m]));
      JoinSplit32(Crc32(bytes[..m]));
      FourOctetBurst(wire[..m], bytes[..m], i, i + 4);
    }
  }

  /** The octets of the difference of two checksums. */
  lemma DifferenceOctets(wire: Bytes, bytes: Bytes, i: nat)
    requires SelfChecked(wire) && SelfChecked(bytes) && DiffersInWindow(wire, bytes, i)
    requires i <= |wire| - 4
    ensures var m := |wire| - 4;
            var d := Register(ZERO, Xor(wire[i..m], bytes[i..m])).bits;
            && First32(d) == Change(wire[m], bytes[m])
            && Second32(d) == Change(wire[m + 1], bytes[m + 1])
            && Third32(d) == Change(wire[m + 2], bytes[m + 2])
            && Fourth32(d) == Change(wire[m + 3], bytes[m + 3])
  {
    hide Crc32, Register, Add, First32, Second32, Third32, Fourth32, Change, SelfChecked;
    var m := |wire| - 4;
    WindowOverlaps(wire, bytes, i, m);
    TailDifference(wire[..i], wire[i..m], bytes[i..m]);
    var c, d := Crc32(wire[..m]), Crc32(bytes[..m]);
    FirstOfSum(c, d);
    SecondOfSum(c, d);
    ThirdOfSum(c, d);
    FourthOfSum(c, d);
    ChecksumOctets(wire);
    ChecksumOctets(bytes);
  }

  /** Equal registers after the tails leave only equal tails. */
  lemma SameChecksum(wire: Bytes, bytes: Bytes, i: nat)
    requires SelfChecked(wire) && SelfChecked(bytes) && DiffersInWindow(wire, bytes, i)
    requires i <= |wire| - 4 < i + 4
    requires Register(ZERO, Xor(wire[i..|wire| - 4], bytes[i..|wire| - 4])) == ZERO
    ensures bytes == wire
  {
    hide Crc32, Register, Add, First32, Second32, Third32, Fourth32;
    var m := |wire| - 4;
    WindowOverlaps(wire, bytes, i, m);
    TailDifference(wire[..i], wire[i..m], bytes[i..m]);
    AddSelf(Reg(Crc32(wire[..m])), Reg(Crc32(bytes[..m])));
    assert wire[..m][..i] == bytes[..m][..i];
    assert wire[..m][m..] == bytes[..m][m..];
    FourOctetBurst(wire[..m], bytes[..m], i, m);
  }

  lemma StraddleOne(wire: Bytes, bytes: Bytes)
    requires SelfChecked(wire) && SelfChecked(bytes)
    requires |wire| >= 5 && DiffersInWindow(wire, bytes, |wire| - 5)
    ensures bytes == wire
  {
    hide Crc32, Register, Absorb, First32, Second32, Third32, Fourth32, SelfChecked, Change;
    var m := |wire| - 4;
    var i := m - 1;
    DifferenceOctets(wire, bytes, i);
    WindowOverlaps(wire, bytes, i, m);
    NoChange(wire[m + 3], bytes[m + 3]);
    var e := Xor(wire[i..m], bytes[i..m]);
    RegisterFrom(ZERO, e);
    TailOfOne(e[0]);
    AbsorbZero();
    SameChecksum(wire, bytes, i);
  }

  lemma StraddleTwo(wire: Bytes, bytes: Bytes)
    requires SelfChecked(wire) && SelfChecked(bytes)
    requires |wire| >= 6 && DiffersInWindow(wire, bytes, |wire| - 6)
    ensures bytes == wire || IsLookalike(wire, bytes)
  {
    hide Crc32, Register, Absorb, First32, Second32, Third32, Fourth32, SelfChecked, Change;
    var m := |wire| - 4;
    var i := m - 2;
    DifferenceOctets(wire, bytes, i);
    WindowOverlaps(wire, bytes, i, m);
    NoChange(wire[m + 2], bytes[m + 2]);
    NoChange(wire[m + 3], bytes[m + 3]);
    var e := Xor(wire[i..m], bytes[i..m]);
    RegisterOfTwo(e);
    TailOfTwo(e[0], e[1]);
    if e[0] == 0 {
      AbsorbZero();
      SameChecksum(wire, bytes, i);
    } else {
      TheTailOfTwo();
      PatternOctets();
      XorIsChange(wire[i..m], bytes[i..m], 0);
      XorIsChange(wire[i..m], bytes[i..m], 1);
      ChangeIs(wire[i], bytes[i], 0x61);
      ChangeIs(wire[i + 1], bytes[i + 1], 0xD8);
      ChangeIs(wire[m], bytes[m], 0xF4);
      ChangeIs(wire[m + 1], bytes[m + 1], 0xEE);
    }
  }

  lemma StraddleThree(wire: Bytes, bytes: Bytes)
    requires SelfChecked(wire) && SelfChecked(bytes)
    requires |wire| >= 7 && DiffersInWindow(wire, bytes, |wire| - 7)
    ensures bytes == wire
  {
    hide Crc32, Register, Absorb, First32, Second32, Third32, Fourth32, SelfChecked, Change;
    var m := |wire| - 4;
    var i := m - 3;
    DifferenceOctets(wire, bytes, i);
    WindowOverlaps(wire, bytes, i, m);
    NoChange(wire[m + 1], bytes[m + 1]);
    NoChange(wire[m + 2], bytes[m + 2]);
    NoChange(wire[m + 3], bytes[m + 3]);
    var e := Xor(wire[i..m], bytes[i..m]);
    RegisterOfThree(e);
    TailOfThree(e[0], e[1], e[2]);
    SameChecksum(wire, bytes, i);
  }

  lemma AbsorbZero()
    ensures Absorb(ZERO, 0) == ZERO
  {
  }

  lemma PatternOctets()
    ensures First32(0xF4EE_0000) == 0xF4 && Second32(0xF4EE_0000) == 0xEE &&
            Third32(0xF4EE_0000) == 0 && Fourth32(0xF4EE_0000) == 0
  {
  }

  lemma RegisterOfTwo(e: Bytes)
    requires |e| == 2
    ensures Register(ZERO, e) == Absorb(Absorb(ZERO, e[0]), e[1])
  {
    hide Absorb;
    assert Register(ZERO, e) == Register(Absorb(ZERO, e[0]), e[1..]);
    RegisterFrom(Absorb(ZERO, e[0]), e[1..]);
  }

  lemma RegisterOfThree(e: Bytes)
    requires |e| == 3
    ensures Register(ZERO, e) == Absorb(Absorb(Absorb(ZERO, e[0]), e[1]), e[2])
  {
    hide Absorb;
    assert Register(ZERO, e) == Register(Absorb(ZERO, e[0]), e[1..]);
    assert Register(Absorb(ZERO, e[0]), e[1..]) == Register(Absorb(Absorb(ZERO, e[0]), e[1]), e[1..][1..]);
    RegisterFrom(Absorb(Absorb(ZERO, e[0]), e[1]), e[1..][1..]);
  }

  lemma RegisterFrom(c: Reg, e: Bytes)
    requires |e| == 1
    ensures Register(c, e) == Absorb(c, e[0])
  {
    hide Absorb;
  }

  /** In the other direction, the pattern does keep the checksum right. */
  lemma LookalikeIsSelfChecked(wire: Bytes, bytes: Bytes)
    requires SelfChecked(wire) && |wire| >= 6 && IsLookalike(wire, bytes)
    ensures SelfChecked(bytes)
  {
    hide Crc32, Register, Absorb, First32, Second32, Third32, Fourth32, SelfChecked, Change, Add;
    var m := |wire| - 4;
    var i := m - 2;
    WindowOverlaps(wire, bytes, i, m);
    TailDifference(wire[..i], wire[i..m], bytes[i..m]);
    var e := Xor(wire[i..m], bytes[i..m]);
    XorIsChange(wire[i..m], bytes[i..m], 0);
    XorIsChange(wire[i..m], bytes[i..m], 1);
    ChangeIs(wire[i], bytes[i], 0x61);
    ChangeIs(wire[i + 1], bytes[i + 1], 0xD8);
    RegisterOfTwo(e);
    TheTailOfTwo();
    PatternOctets();
    var c, d := Crc32(wire[..m]), Crc32(bytes[..m]);
    FirstOfSum(c, d);
    SecondOfSum(c, d);
    ThirdOfSum(c, d);
    FourthOfSum(c, d);
    ChangeIs(First32(c), First32(d), 0xF4);
    ChangeIs(Second32(c), Second32(d), 0xEE);
    NoChange(Third32(c), Third32(d));
    NoChange(Fourth32(c), Fourth32(d));
    ChecksumOctets(wire);
    RebuildChecksum(bytes);
  }

  lemma RebuildChecksum(bytes: Bytes)
    requires |bytes| >= 4
    requires var n, c := |bytes| - 4, Crc32(bytes[..|bytes| - 4]);
             && bytes[n] == First32(c) && bytes[n + 1] == Second32(c)
             && bytes[n + 2] == Third32(c) && bytes[n + 3] == Fourth32(c)
    ensures SelfChecked(bytes)
  {
    hide Crc32, First32, Second32, Third32, Fourth32;
    LastFour(bytes);
  }

  /** Frames whose meaning stays valid under the pattern; shorter payloads drag the status field in. */
  predicate Survives(frame: Frame) {
    |frame.payload| >= 2 ||
    (frame.opcode == ERROR_RESPONSE && frame.status != (if |frame.payload| == 0 then 0x61D8 else 0x0061))
  }

  /** With the first sixteen octets and the checksum right, only the semantic rules are left. */
  lemma OnlySemantics(frame: Frame, bytes: Bytes)
    requires Encodable(frame) && |bytes| == |Wire(frame)| && bytes[..16] == Wire(frame)[..16]
    requires SelfChecked(bytes)
    ensures Decode(bytes).Decoded? <==> HasValidSemantics(ReadFrame(bytes))
    ensures ReadFrame(bytes).opcode == frame.opcode && ReadFrame(bytes).flags == frame.flags
  {
    hide Crc32, Encode, HasValidSemantics, IsSupportedOpcode, SelfChecked;
    hide First32, Second32, Third32, Fourth32, Join32, Join16, Value16;
    var wire := Wire(frame);
    DecodeWire(frame);
    WireOfDecoded(wire);
    assert forall k :: 0 <= k < 16 ==> bytes[k] == bytes[..16][k] == wire[..16][k] == wire[k];
    assert bytes[..6] == wire[..6];
    SamePrologue(bytes, wire);
    ChecksumOctets(bytes);
    ReadIs32(bytes, |bytes| - 4, Crc32(bytes[..|bytes| - 4]));
  }

  lemma StatusChangeBoth(h: bv8, l: bv8)
    ensures Join16(h ^ 0x61, l ^ 0xD8) == 0 <==> Join16(h, l) == 0x61D8
  {
  }

  lemma StatusChangeLow(h: bv8, l: bv8)
    ensures Join16(h, l ^ 0x61) == 0 <==> Join16(h, l) == 0x0061
  {
  }

  lemma SameShape(frame: Frame, other: Frame)
    requires HasValidSemantics(frame)
    requires other.opcode == frame.opcode && other.flags == frame.flags && |other.payload| == |frame.payload|
    ensures HasValidSemantics(other) <==> (other.status != OK <==> frame.opcode == ERROR_RESPONSE)
  {
  }

  lemma ShorterPrefix<T>(a: seq<T>, b: seq<T>, i: nat, j: nat)
    requires j <= i <= |a| && i <= |b| && a[..i] == b[..i]
    ensures a[..j] == b[..j]
  {
    assert a[..j] == a[..i][..j] && b[..j] == b[..i][..j];
  }

  lemma LookalikeStatus(wire: Bytes, bytes: Bytes)
    requires |wire| >= 22 && IsLookalike(wire, bytes)
    ensures |wire| >= 24 ==> ReadU16(bytes, 16) == ReadU16(wire, 16)
    ensures |wire| == 23 ==> (ReadU16(bytes, 16) == OK <==> ReadU16(wire, 16) == 0x0061)
    ensures |wire| == 22 ==> (ReadU16(bytes, 16) == OK <==> ReadU16(wire, 16) == 0x61D8)
  {
    hide Join16;
    var n := |wire|;
    WindowOverlaps(wire, bytes, n - 6, n - 4);
    if n == 22 {
      StatusChangeBoth(wire[16], wire[17]);
    } else if n == 23 {
      StatusChangeLow(wire[16], wire[17]);
    }
  }

  /** The lookalike of a frame is accepted exactly when the frame survives the pattern. */
  lemma LookalikeAccepted(frame: Frame, bytes: Bytes)
    requires Encodable(frame) && IsLookalike(Wire(frame), bytes)
    ensures Decode(bytes).Decoded? <==> Survives(frame)
  {
    hide Encode, SelfChecked, HasValidSemantics, PrologueError, ReadU32, ReadU16, Value16, Crc32, IsLookalike;
    var wire := Wire(frame);
    EncodableFacts(frame);
    DecodeWire(frame);
    DecodedIsSelfChecked(wire);
    LookalikeIsSelfChecked(wire, bytes);
    LookalikeStatus(wire, bytes);
    WindowOfLookalike(wire, bytes);
    ShorterPrefix(bytes, wire, |wire| - 6, 16);
    OnlySemantics(frame, bytes);
    SameShape(frame, ReadFrame(bytes));
    SameShape(frame, frame);
  }

  lemma WindowOfLookalike(wire: Bytes, bytes: Bytes)
    requires |wire| >= 6 && IsLookalike(wire, bytes)
    ensures DiffersInWindow(wire, bytes, |wire| - 6)
  {
  }

  /**
   Corruption of up to four consecutive octets of an encoded frame, wherever they lie: it is accepted
   exactly when it is the one pattern above, applied to a frame that survives it.
   */
  lemma FourOctetCorruption(frame: Frame, bytes: Bytes, i: nat)
    requires Encodable(frame) && DiffersInWindow(Wire(frame), bytes, i) && bytes != Wire(frame)
    ensures Decode(bytes).Decoded? <==> IsLookalike(Wire(frame), bytes) && Survives(frame)
  {
    hide Encode, Decode, SelfChecked, Survives, IsLookalike;
    var wire := Wire(frame);
    EncodableFacts(frame);
    if IsLookalike(wire, bytes) {
      LookalikeAccepted(frame, bytes);
    } else if Decode(bytes).Decoded? {
      DecodeWire(frame);
      DecodedIsSelfChecked(wire);
      DecodedIsSelfChecked(bytes);
      if i + 5 == |wire| {
        StraddleOne(wire, bytes);
      } else if i + 6 == |wire| {
        StraddleTwo(wire, bytes);
      } else if i + 7 == |wire| {
        StraddleThree(wire, bytes);
      } else {
        OneSided(wire, bytes, i);
      }
    }
  }

  /** The promise without exception: before the checksum field, and inside it. */
  lemma OneSidedCorruption(frame: Frame, bytes: Bytes, i: nat)
    requires Encodable(frame) && DiffersInWindow(Wire(frame), bytes, i) && bytes != Wire(frame)
    requires i + 4 <= |Wire(frame)| - CHECKSUM_SIZE || i == |Wire(frame)| - CHECKSUM_SIZE
    ensures Decode(bytes).Rejected?
  {
    hide Encode, Decode, SelfChecked;
    DecodeWire(frame);
    if Decode(bytes).Decoded? {
      DecodedIsSelfChecked(Wire(frame));
      DecodedIsSelfChecked(bytes);
      OneSided(Wire(frame), bytes, i);
    }
  }

  /** Corruption of up to 32 consecutive bits of what the checksum covers, the field itself intact. */
  lemma ThirtyTwoBitCorruption(frame: Frame, bytes: Bytes, p: nat, q: nat)
    requires Encodable(frame) && |bytes| == |Wire(frame)| && bytes != Wire(frame)
    requires var n := |bytes| - CHECKSUM_SIZE;
             && bytes[n..] == Wire(frame)[n..]
             && p <= q <= 8 * n && q - p <= 32
             && BitsOf(bytes[..n])[..p] == BitsOf(Wire(frame)[..n])[..p]
             && BitsOf(bytes[..n])[q..] == BitsOf(Wire(frame)[..n])[q..]
    ensures Decode(bytes).Rejected?
  {
    hide Encode, Decode, SelfChecked, Crc32, BitsOf, First32, Second32, Third32, Fourth32;
    var wire, n := Wire(frame), |bytes| - CHECKSUM_SIZE;
    DecodeWire(frame);
    if Decode(bytes).Decoded? {
      DecodedIsSelfChecked(wire);
      DecodedIsSelfChecked(bytes);
      ChecksumOctets(wire);
      ChecksumOctets(bytes);
      assert forall k :: n <= k < |bytes| ==> bytes[k] == bytes[n..][k - n] == wire[n..][k - n] == wire[k];
      JoinSplit32(Crc32(wire[..n]));
      JoinSplit32(Crc32(bytes[..n]));
      ThirtyTwoBitBurst(wire[..n], bytes[..n], p, q);
    }
  }

  function Lookalike(wire: Bytes): Bytes
    requires |wire| >= 6
  {
    var n := |wire|;
    wire[..n - 6] + [wire[n - 6] ^ 0x61, wire[n - 5] ^ 0xD8, wire[n - 4] ^ 0xF4, wire[n - 3] ^ 0xEE] + wire[n - 2..]
  }

  /**
   The exception is real: a request for 4 octets from 0x100, damaged in four consecutive octets, is
   accepted as a request for 0x61dc octets.
   */
  lemma AcceptedCorruption()
    ensures var frame := Frame(1, READ_REQUEST, 0, 1, 0x100, OK, [0, 4]);
            && Encodable(frame)
            && DiffersInWindow(Wire(frame), Lookalike(Wire(frame)), 18)
            && Decode(Lookalike(Wire(frame))) == Decoded(frame.(payload := [0x61, 0xDC]), 24)
  {
    hide Crc32, Encode, Decode, SelfChecked, HasValidSemantics;
    var frame := Frame(1, READ_REQUEST, 0, 1, 0x100, OK, [0, 4]);
    AnyRequestedLength(frame);
    var wire := Wire(frame);
    EncodableFacts(frame);
    var bytes := Lookalike(wire);
    LookalikeAccepted(frame, bytes);
    LookalikeFields(frame);
  }

  lemma LookalikeFields(frame: Frame)
    requires Encodable(frame) && |frame.payload| == 2 && Decode(Lookalike(Wire(frame))).Decoded?
    ensures Decode(Lookalike(Wire(frame))) ==
            Decoded(frame.(payload := [frame.payload[0] ^ 0x61, frame.payload[1] ^ 0xD8]), 24)
  {
    hide Crc32, Encode, HasValidSemantics, IsSupportedOpcode;
    hide First32, Second32, Third32, Fourth32, Join32, Join16, Value16;
    var wire := Wire(frame);
    EncodableFacts(frame);
    var bytes := Lookalike(wire);
    DecodeWire(frame);
    WireOfDecoded(bytes);
    assert bytes[..18] == wire[..18];
    ReadPrefix(wire[..18], wire);
    ReadPrefix(wire[..18], bytes);
    assert forall k :: 0 <= k < 6 ==> bytes[k] == bytes[..18][k] == wire[..18][k] == wire[k];
    assert wire[18..20] == frame.payload;
    assert wire[18] == frame.payload[0] && wire[19] == frame.payload[1];
    assert bytes[18..20] == [bytes[18], bytes[19]];
  }
}
