/** The example frame that the protocol document publishes, octet for octet. */
module TestVector {
  import opened Words
  import opened Frames
  import opened Crc
  import opened Codec

  /** The frame without its checksum: a read request for 4 octets at 0x00000100 with request ID 1. */
  const COVERED: Bytes := [
    0x49, 0x4D, 0x01, 0x01, 0x00,
    0x00, 0x00, 0x00, 0x00, 0x01,
    0x00, 0x00, 0x01, 0x00, 0x00,
    0x02, 0x00, 0x00, 0x00, 0x04]

  const REQUEST := Frame(1, READ_REQUEST, 0, 1, 0x100, OK, [0x00, 0x04])

  lemma RegisterEmpty(c: Reg)
    ensures Register(c, []) == c
  {
  }

  /** Five turns of the outer loop of crc32. */
  lemma FiveOctets(c0: Reg, c1: Reg, c2: Reg, c3: Reg, c4: Reg, c5: Reg, s: Bytes, rest: Bytes)
    requires |s| == 5
    requires Absorb(c0, s[0]) == c1 && Absorb(c1, s[1]) == c2 && Absorb(c2, s[2]) == c3
    requires Absorb(c3, s[3]) == c4 && Absorb(c4, s[4]) == c5
    ensures Register(c0, s + rest) == Register(c5, rest)
  {
    hide Absorb;
    RegisterConcat(c0, s, rest);
    assert s[1..][1..] == s[2..] && s[2..][1..] == s[3..] && s[3..][1..] == s[4..] && s[4..][1..] == [];
    assert Register(c0, s) == Register(c1, s[1..]);
    assert Register(c1, s[1..]) == Register(c2, s[2..]);
    assert Register(c2, s[2..]) == Register(c3, s[3..]);
    assert Register(c3, s[3..]) == Register(c4, s[4..]);
    assert Register(c4, s[4..]) == Register(c5, []);
    RegisterEmpty(c5);
  }

  lemma FirstFive(rest: Bytes)
    ensures Register(Reg(0xFFFF_FFFF), [0x49, 0x4D, 0x01, 0x01, 0x00] + rest) == Register(Reg(0x1D99_E94C), rest)
  {
    FiveOctets(Reg(0xFFFF_FFFF), Reg(0x22FD_E946), Reg(0x97F0_2461),
               Reg(0x4D25_917C), Reg(0x2EF9_2810), Reg(0x1D99_E94C),
               [0x49, 0x4D, 0x01, 0x01, 0x00], rest);
  }

  lemma SecondFive(rest: Bytes)
    ensures Register(Reg(0x1D99_E94C), [0x00, 0x00, 0x00, 0x00, 0x01] + rest) == Register(Reg(0x4CDD_640F), rest)
  {
    FiveOctets(Reg(0x1D99_E94C), Reg(0x7F77_9452), Reg(0x851A_474C),
               Reg(0x7FEF_17FC), Reg(0xB474_5120), Reg(0x4CDD_640F),
               [0x00, 0x00, 0x00, 0x00, 0x01], rest);
  }

  lemma ThirdFive(rest: Bytes)
    ensures Register(Reg(0x4CDD_640F), [0x00, 0x00, 0x01, 0x00, 0x00] + rest) == Register(Reg(0xEE4B_3BD8), rest)
  {
    FiveOctets(Reg(0x4CDD_640F), Reg(0x90F3_C0F5), Reg(0xCD47_F553),
               Reg(0x85A8_772D), Reg(0x455A_F402), Reg(0xEE4B_3BD8),
               [0x00, 0x00, 0x01, 0x00, 0x00], rest);
  }

  lemma FourthFive(rest: Bytes)
    ensures Register(Reg(0xEE4B_3BD8), [0x02, 0x00, 0x00, 0x00, 0x04] + rest) == Register(Reg(0x5F30_6002), rest)
  {
    FiveOctets(Reg(0xEE4B_3BD8), Reg(0x66E8_70F1), Reg(0xCADC_2AFA),
               Reg(0x5DA2_C728), Reg(0x35E8_0A3D), Reg(0x5F30_6002),
               [0x02, 0x00, 0x00, 0x00, 0x04], rest);
  }

  lemma Checksum()
    ensures Crc32(COVERED) == 0xA0CF_9FFD
  {
    hide Absorb, Register;
    var a: Bytes, b: Bytes, c: Bytes, d: Bytes := [0x49, 0x4D, 0x01, 0x01, 0x00], [0x00, 0x00, 0x00, 0x00, 0x01],
        [0x00, 0x00, 0x01, 0x00, 0x00], [0x02, 0x00, 0x00, 0x00, 0x04];
    assert COVERED == a + (b + (c + (d + [])));
    FirstFive(b + (c + (d + [])));
    SecondFive(c + (d + []));
    ThirdFive(d + []);
    FourthFive([]);
    RegisterEmpty(Reg(0x5F30_6002));
  }

  lemma HeaderOctets()
    ensures Covered(REQUEST) == COVERED
  {
  }

  /** The encoder produces exactly the published octets, and the decoder reads them back. */
  lemma PublishedFrame()
    ensures Encode(REQUEST) == Encoded(COVERED + [0xA0, 0xCF, 0x9F, 0xFD])
    ensures Decode(COVERED + [0xA0, 0xCF, 0x9F, 0xFD]) == Decoded(REQUEST, 24)
  {
    hide Crc32, Covered, Decode;
    HeaderOctets();
    Checksum();
    Canonical(REQUEST, COVERED + [0xA0, 0xCF, 0x9F, 0xFD], 24);
  }
}
