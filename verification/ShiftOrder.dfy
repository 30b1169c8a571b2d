/**
 How long the register takes to come back. Shifting it is multiplication by x modulo the polynomial, and no
 power of x within reach of a frame is again a single bit. Every 32 shifts one register is looked at; since a
 single bit travels down to the lowest position in fewer than 32 shifts, a register in between that were a
 single bit would show.
 */
module ShiftOrder {
  import opened Crc
  import opened Bursts

  predicate AtMostOneBit(c: Reg) {
    c.bits & (c.bits - 1) == 0
  }

  // ---------- Thirty-two shifts at a time ----------

  function Hop(c: Reg): Reg {
    Shift8(Shift8(Shift8(Shift8(c))))
  }

  function Hops(c: Reg, n: nat): Reg
    decreases n
  {
    if n == 0 then c else Hops(Hop(c), n - 1)
  }

  /** None of the next n hops lands on a single bit. */
  predicate Barren(c: Reg, n: nat)
    decreases n
  {
    n == 0 || (!AtMostOneBit(Hop(c)) && Barren(Hop(c), n - 1))
  }

  lemma BarrenStep(c: Reg, d: Reg, n: nat)
    requires Hop(c) == d && !AtMostOneBit(d) && Barren(d, n)
    ensures Barren(c, n + 1) && Hops(c, n + 1) == Hops(d, n)
  {
    hide Hop, AtMostOneBit;
  }

  lemma BarrenEnd(c: Reg)
    ensures Barren(c, 0) && Hops(c, 0) == c
  {
  }

  lemma SixHops(c0: Reg, c1: Reg, c2: Reg, c3: Reg, c4: Reg, c5: Reg, c6: Reg)
    requires Hop(c0) == c1 && Hop(c1) == c2 && Hop(c2) == c3 && Hop(c3) == c4 && Hop(c4) == c5 && Hop(c5) == c6
    requires !AtMostOneBit(c1) && !AtMostOneBit(c2) && !AtMostOneBit(c3)
    requires !AtMostOneBit(c4) && !AtMostOneBit(c5) && !AtMostOneBit(c6)
    ensures Barren(c0, 6) && Hops(c0, 6) == c6
  {
    hide Hop, AtMostOneBit, Barren, Hops;
    BarrenEnd(c6);
    BarrenStep(c5, c6, 0);
    BarrenStep(c4, c5, 1);
    BarrenStep(c3, c4, 2);
    BarrenStep(c2, c3, 3);
    BarrenStep(c1, c2, 4);
    BarrenStep(c0, c1, 5);
  }

  lemma Stretch1()
    ensures Barren(Reg(0x0000_0001), 6) && Hops(Reg(0x0000_0001), 6) == Reg(0x8125_6527)
  {
    SixHops(Reg(0x0000_0001), Reg(0xB8BC_6765), Reg(0xCCAA_009E), Reg(0x9BA5_4C6F),
            Reg(0xAE68_9191), Reg(0x6567_3B46), Reg(0x8125_6527));
  }

  lemma Stretch2()
    ensures Barren(Reg(0x8125_6527), 6) && Hops(Reg(0x8125_6527), 6) == Reg(0x3DB1_ECDC)
  {
    SixHops(Reg(0x8125_6527), Reg(0x01B5_FD1D), Reg(0xF1DA_05AA), Reg(0x9570_D495),
            Reg(0xAF44_9247), Reg(0x2A28_3862), Reg(0x3DB1_ECDC));
  }

  lemma Stretch3()
    ensures Barren(Reg(0x3DB1_ECDC), 6) && Hops(Reg(0x3DB1_ECDC), 6) == Reg(0xAE0B_5394)
  {
    SixHops(Reg(0x3DB1_ECDC), Reg(0x69CC_FC0D), Reg(0x1D95_13D7), Reg(0xCAD3_8E8F),
            Reg(0x8F35_2D95), Reg(0x653D_9822), Reg(0xAE0B_5394));
  }

  lemma Stretch4()
    ensures Barren(Reg(0xAE0B_5394), 6) && Hops(Reg(0xAE0B_5394), 6) == Reg(0xDF06_8DC2)
  {
    SixHops(Reg(0xAE0B_5394), Reg(0x8E42_B13E), Reg(0x1C27_9815), Reg(0x5A03_A0CF),
            Reg(0x57C5_4819), Reg(0x101A_2331), Reg(0xDF06_8DC2));
  }

  lemma Stretch5()
    ensures Barren(Reg(0xDF06_8DC2), 6) && Hops(Reg(0xDF06_8DC2), 6) == Reg(0x910E_EEC1)
  {
    SixHops(Reg(0xDF06_8DC2), Reg(0x759F_C69D), Reg(0x0CBE_C0ED), Reg(0xC64A_C0B8),
            Reg(0x31F8_303F), Reg(0x0198_66E8), Reg(0x910E_EEC1));
  }

  lemma Stretch6()
    ensures Barren(Reg(0x910E_EEC1), 6) && Hops(Reg(0x910E_EEC1), 6) == Reg(0x26B7_0C3D)
  {
    SixHops(Reg(0x910E_EEC1), Reg(0x7406_FA95), Reg(0x33FF_F533), Reg(0x7D65_7A10),
            Reg(0x3F41_287A), Reg(0x6DD8_04D9), Reg(0x26B7_0C3D));
  }

  lemma Stretch7()
    ensures Barren(Reg(0x26B7_0C3D), 6) && Hops(Reg(0x26B7_0C3D), 6) == Reg(0xD1DF_2327)
  {
    SixHops(Reg(0x26B7_0C3D), Reg(0x72D2_649A), Reg(0x9026_D5B1), Reg(0x1D5D_CE44),
            Reg(0xE354_3BE0), Reg(0x1995_60DB), Reg(0xD1DF_2327));
  }

  lemma Stretch8()
    ensures Barren(Reg(0xD1DF_2327), 6) && Hops(Reg(0xD1DF_2327), 6) == Reg(0x596C_8D81)
  {
    SixHops(Reg(0xD1DF_2327), Reg(0xF09A_54AC), Reg(0x5A1B_B05D), Reg(0xDEB1_5A1F),
            Reg(0xF5E4_8C85), Reg(0xC56D_9496), Reg(0x596C_8D81));
  }

  lemma Stretch9()
    ensures Barren(Reg(0x596C_8D81), 6) && Hops(Reg(0x596C_8D81), 6) == Reg(0xFE80_7BBD)
  {
    SixHops(Reg(0x596C_8D81), Reg(0x67F7_9476), Reg(0x3C65_6CED), Reg(0x523D_48C4),
            Reg(0x682B_DD4F), Reg(0x733F_FA0B), Reg(0xFE80_7BBD));
  }

  lemma Stretch10()
    ensures Barren(Reg(0xFE80_7BBD), 6) && Hops(Reg(0xFE80_7BBD), 6) == Reg(0x0077_F00D)
  {
    SixHops(Reg(0xFE80_7BBD), Reg(0xD63A_56A6), Reg(0x4A28_BD43), Reg(0x8F73_9CB4),
            Reg(0x1F0C_2CDD), Reg(0xC4D4_9C39), Reg(0x0077_F00D));
  }

  lemma Stretch11()
    ensures Barren(Reg(0x0077_F00D), 6) && Hops(Reg(0x0077_F00D), 6) == Reg(0xB918_A347)
  {
    SixHops(Reg(0x0077_F00D), Reg(0x27D0_443C), Reg(0xE95C_1271), Reg(0x03F9_F863),
            Reg(0xCE33_71CB), Reg(0x7CC8_E1E7), Reg(0xB918_A347));
  }

  lemma Stretch12()
    ensures Barren(Reg(0xB918_A347), 6) && Hops(Reg(0xB918_A347), 6) == Reg(0x2C53_8639)
  {
    SixHops(Reg(0xB918_A347), Reg(0xED5B_10CC), Reg(0xA749_E894), Reg(0xFCDA_35EC),
            Reg(0x71D5_4A59), Reg(0x1045_38CE), Reg(0x2C53_8639));
  }

  lemma {:induction false} BarrenConcat(c: Reg, m: nat, n: nat)
    requires Barren(c, m) && Barren(Hops(c, m), n)
    ensures Barren(c, m + n) && Hops(c, m + n) == Hops(Hops(c, m), n)
    decreases m
  {
    hide Hop, AtMostOneBit;
    if m > 0 {
      BarrenConcat(Hop(c), m - 1, n);
    }
  }

  lemma BarrenForAFrame()
    ensures Barren(ONE, 72)
  {
    hide Hop, AtMostOneBit, Barren, Hops;
    Stretch1();
    Stretch2();
    Stretch3();
    Stretch4();
    Stretch5();
    Stretch6();
    Stretch7();
    Stretch8();
    Stretch9();
    Stretch10();
    Stretch11();
    Stretch12();
    BarrenConcat(ONE, 6, 6);
    BarrenConcat(ONE, 12, 6);
    BarrenConcat(ONE, 18, 6);
    BarrenConcat(ONE, 24, 6);
    BarrenConcat(ONE, 30, 6);
    BarrenConcat(ONE, 36, 6);
    BarrenConcat(ONE, 42, 6);
    BarrenConcat(ONE, 48, 6);
    BarrenConcat(ONE, 54, 6);
    BarrenConcat(ONE, 60, 6);
    BarrenConcat(ONE, 66, 6);
  }

  lemma {:induction false} BarrenAt(c: Reg, n: nat, k: nat)
    requires Barren(c, n) && 1 <= k <= n
    ensures !AtMostOneBit(Hops(c, k))
    decreases n
  {
    hide Hop, AtMostOneBit;
    if k > 1 {
      BarrenAt(Hop(c), n - 1, k - 1);
    }
  }

  // ---------- One shift at a time ----------

  lemma {:induction false} ShiftsTwice(c: Reg, m: nat, n: nat)
    ensures Shifts(c, m + n) == Shifts(Shifts(c, m), n)
    decreases m
  {
    hide Shift;
    if m > 0 {
      ShiftsTwice(Shift(c), m - 1, n);
    }
  }

  lemma HopIsShifts(c: Reg)
    ensures Hop(c) == Shifts(c, 32)
  {
    hide Shift8, Shifts;
    Shifts8(c);
    Shifts8(Shift8(c));
    Shifts8(Shift8(Shift8(c)));
    Shifts8(Shift8(Shift8(Shift8(c))));
    ShiftsTwice(c, 8, 8);
    ShiftsTwice(c, 16, 8);
    ShiftsTwice(c, 24, 8);
  }

  lemma {:induction false} HopsAreShifts(c: Reg, n: nat)
    ensures Hops(c, n) == Shifts(c, 32 * n)
    decreases n
  {
    hide Hop, Shift;
    if n > 0 {
      HopIsShifts(c);
      HopsAreShifts(Hop(c), n - 1);
      ShiftsTwice(c, 32, 32 * (n - 1));
    }
  }

  lemma {:induction false} ShiftsInjective(c: Reg, d: Reg, n: nat)
    requires Shifts(c, n) == Shifts(d, n)
    ensures c == d
    decreases n
  {
    hide Shift;
    if n > 0 {
      ShiftsInjective(Shift(c), Shift(d), n - 1);
      ShiftInjective(c, d);
    }
  }

  lemma ShiftZero()
    ensures Shift(ZERO) == ZERO
  {
  }

  lemma {:induction false} ShiftsZero(n: nat)
    ensures Shifts(ZERO, n) == ZERO
  {
    hide Shift;
    if n > 0 {
      ShiftZero();
      ShiftsZero(n - 1);
    }
  }

  // ---------- One bit set ----------

  /** n bits, of which only the k-th is set. */
  function Unit(n: nat, k: int): (r: Bits)
    ensures |r| == n
  {
    seq(n, i => i == k)
  }

  lemma {:induction false} UnitRegister(c: Reg, n: nat, k: int)
    requires k < 0 || c == ZERO
    requires k < n
    ensures BitRegister(c, Unit(n, k)) == if k < 0 then Shifts(c, n) else Shifts(ONE, n - k)
    decreases n
  {
    hide Shift, Add;
    if n > 0 {
      assert Unit(n, k)[1..] == Unit(n - 1, k - 1);
      if k == 0 {
        AddZero(ONE);
        UnitRegister(Shift(ONE), n - 1, -1);
      } else {
        ShiftZero();
        UnitRegister(Shift(c), n - 1, k - 1);
      }
    }
  }

  // ---------- A single bit on its way down ----------

  lemma SingleOdd(c: Reg)
    requires AtMostOneBit(c) && Odd(c)
    ensures c == ONE
  {
  }

  lemma SingleEven(c: Reg, m: Reg)
    requires AtMostOneBit(c) && !Odd(c) && c != ZERO && Within(c, Push(true, m))
    ensures AtMostOneBit(Shift(c)) && Shift(c) != ZERO && Within(Shift(c), m)
  {
  }

  lemma WithinNothing(c: Reg)
    requires Within(c, ZERO)
    ensures c == ZERO
  {
  }

  /** A single bit is shifted down to the lowest position. */
  lemma {:induction false} Descends(c: Reg, n: nat) returns (b: nat)
    requires AtMostOneBit(c) && c != ZERO && Within(c, Mask(n))
    ensures b < n && Shifts(c, b) == ONE
    decreases n
  {
    hide Shift, AtMostOneBit, Odd, Within, Push;
    if n == 0 {
      WithinNothing(c);
      assert false;
    }
    if Odd(c) {
      SingleOdd(c);
      b := 0;
    } else {
      SingleEven(c, Mask(n - 1));
      b := Descends(Shift(c), n - 1);
      b := b + 1;
    }
  }

  lemma DoubledSingle(v: Reg)
    requires AtMostOneBit(v) && TopClear(v)
    ensures AtMostOneBit(Push(false, v))
  {
  }

  lemma LowestBit()
    ensures Push(true, ZERO) == ONE && AtMostOneBit(ONE) && AbsorbBit(ONE, true) == ZERO
  {
  }

  lemma {:induction false} SinglePack(n: nat)
    requires n <= 31
    ensures AtMostOneBit(Pack(Unit(n + 1, n)))
  {
    hide Push, AtMostOneBit, TopClear;
    if n == 0 {
      assert Unit(1, 0)[1..] == [];
      LowestBit();
    } else {
      assert Unit(n + 1, n)[1..] == Unit(n, n - 1);
      SinglePack(n - 1);
      PackTopClear(Unit(n, n - 1));
      DoubledSingle(Pack(Unit(n, n - 1)));
    }
  }

  /** Whatever reaches the lowest bit in fewer than 32 shifts is a single bit. */
  lemma SingleBefore(c: Reg, n: nat)
    requires n <= 31 && Shifts(c, n) == ONE
    ensures AtMostOneBit(c)
  {
    hide AbsorbBit, AtMostOneBit, Pack, Shifts;
    UnitRegister(c, n, -1);
    assert Unit(n + 1, n) == Unit(n, -1) + [true];
    BitRegisterConcat(c, Unit(n, -1), [true]);
    OneBitRegister(ONE, true);
    LowestBit();
    DrivenToZero(c, Unit(n + 1, n));
    SinglePack(n);
  }

  lemma OneBitRegister(c: Reg, b: bool)
    ensures BitRegister(c, [b]) == AbsorbBit(c, b)
  {
    hide AbsorbBit;
    assert [b][1..] == [];
  }

  lemma WithinMask32(c: Reg)
    ensures Within(c, Mask(32))
  {
    hide Mask;
    Mask31();
    LastMask();
  }

  lemma LastMask()
    ensures Mask(32) == Push(true, Mask(31))
  {
    hide Push;
  }

  lemma OneFacts()
    ensures ONE != ZERO && !AtMostOneBit(POLY)
  {
  }

  /** The lowest bit does not come back within the length of a frame. */
  lemma NoReturn(n: nat)
    requires 1 <= n < 2304
    ensures Shifts(ONE, n) != ONE
  {
    hide Shift, AtMostOneBit, Barren, Hops, Mask, Within;
    if Shifts(ONE, n) == ONE {
      var a, r := n / 32, n % 32;
      if a == 0 {
        ShiftOne();
        assert Shifts(POLY, n - 1) == ONE;
        SingleBefore(POLY, n - 1);
        OneFacts();
      } else {
        HopsAreShifts(ONE, a);
        ShiftsTwice(ONE, 32 * a, r);
        SingleBefore(Hops(ONE, a), r);
        BarrenForAFrame();
        BarrenAt(ONE, 72, a);
      }
    }
  }

  /** Nor does any single bit come up. */
  lemma NoSingleBit(n: nat)
    requires 1 <= n <= 2192
    ensures !AtMostOneBit(Shifts(ONE, n))
  {
    hide Shift, Shifts, AtMostOneBit, Mask, Within;
    var c := Shifts(ONE, n);
    if AtMostOneBit(c) {
      OneFacts();
      if c == ZERO {
        ShiftsZero(n);
        ShiftsInjective(ONE, ZERO, n);
      } else {
        WithinMask32(c);
        var b := Descends(c, 32);
        ShiftsTwice(ONE, n, b);
        NoReturn(n + b);
      }
    }
  }
}
