/** Hexadecimal text for traces and inspection (src/codec.cpp). */
module Hex {
  import opened Words
  import opened Frames

  const DIGITS := "0123456789abcdef"

  lemma NibbleRange(b: bv8)
    ensures Nat(b >> 4) < 16 && Nat(b & 0x0F) < 16
  {
  }

  function HighDigit(b: bv8): char {
    NibbleRange(b);
    DIGITS[Nat(b >> 4)]
  }

  function LowDigit(b: bv8): char {
    NibbleRange(b);
    DIGITS[Nat(b & 0x0F)]
  }

  function BytesToHex(bytes: Bytes): (text: string)
    ensures |text| == 2 * |bytes|
  {
    if bytes == [] then "" else [HighDigit(bytes[0]), LowDigit(bytes[0])] + BytesToHex(bytes[1..])
  }

  function HexNibble(c: char): (r: Option<bv8>)
  {
    if '0' <= c <= '9' then Some(Octet(c as int - '0' as int))
    else if 'a' <= c <= 'f' then Some(Octet(c as int - 'a' as int + 10))
    else if 'A' <= c <= 'F' then Some(Octet(c as int - 'A' as int + 10))
    else None
  }

  function JoinNibbles(high: bv8, low: bv8): bv8 {
    (high << 4) | low
  }

  /** Pairs of digits, as the loop of bytes_from_hex takes them. */
  function Pairs(text: string): Option<Bytes>
    requires |text| % 2 == 0
  {
    if text == "" then Some([])
    else
      var high, low, rest := HexNibble(text[0]), HexNibble(text[1]), Pairs(text[2..]);
      if high.None? || low.None? || rest.None? then None
      else Some([JoinNibbles(high.value, low.value)] + rest.value)
  }

  function BytesFromHex(text: string): Option<Bytes> {
    if |text| % 2 != 0 || |text| / 2 > MAXIMUM_FRAME_SIZE then None else Pairs(text)
  }

  /** What the loop has collected, followed by what is still to come. */
  function Then(result: Bytes, rest: Option<Bytes>): Option<Bytes> {
    if rest.None? then None else Some(result + rest.value)
  }

  lemma ThenStep(result: Bytes, octet: bv8, rest: Option<Bytes>)
    ensures Then(result, Then([octet], rest)) == Then(result + [octet], rest)
  {
    if rest.Some? {
      assert result + ([octet] + rest.value) == result + [octet] + rest.value;
    }
  }

  method FormatHex(bytes: Bytes) returns (result: string)
    ensures result == BytesToHex(bytes)
  {
    hide HighDigit, LowDigit;
    result := "";
    var i := 0;
    while i < |bytes|
      invariant 0 <= i <= |bytes|
      invariant result + BytesToHex(bytes[i..]) == BytesToHex(bytes)
    {
      assert bytes[i..][1..] == bytes[i + 1..];
      result := result + [HighDigit(bytes[i])];
      result := result + [LowDigit(bytes[i])];
      i := i + 1;
    }
  }

  method ParseHex(text: string) returns (r: Option<Bytes>)
    ensures r == BytesFromHex(text)
  {
    hide HexNibble, JoinNibbles;
    if |text| % 2 != 0 || |text| / 2 > MAXIMUM_FRAME_SIZE {
      return None;
    }
    var result := [];
    var index := 0;
    assert text[index..] == text;
    assert Pairs(text).Some? ==> result + Pairs(text).value == Pairs(text).value;
    while index < |text|
      invariant 0 <= index <= |text| && index % 2 == 0
      invariant Pairs(text) == Then(result, Pairs(text[index..]))
    {
      assert text[index..][2..] == text[index + 2..];
      var high := HexNibble(text[index]);
      var low := HexNibble(text[index + 1]);
      if high.None? || low.None? {
        return None;
      }
      var octet := JoinNibbles(high.value, low.value);
      ThenStep(result, octet, Pairs(text[index + 2..]));
      result := result + [octet];
      index := index + 2;
    }
    assert text[index..] == "" && result + [] == result;
    return Some(result);
  }

  // ---------- The digits ----------

  lemma NibblesOf(b: bv8)
    ensures Nat(b) == Nat(b >> 4) * 16 + Nat(b & 0x0F)
  {
  }

  lemma DigitsOf(b: bv8)
    ensures HighDigit(b) == "0123456789abcdef"[Nat(b) / 16] && LowDigit(b) == "0123456789abcdef"[Nat(b) % 16]
  {
    hide Nat;
    NibblesOf(b);
    NibbleRange(b);
    QuotientAndRest(Nat(b), Nat(b >> 4), Nat(b & 0x0F));
  }

  lemma QuotientAndRest(n: nat, q: nat, r: nat)
    requires n == q * 16 + r && r < 16
    ensures n / 16 == q && n % 16 == r
  {
  }

  /** Each octet is written as the digit of its value divided by 16, then the digit of the remainder. */
  lemma {:induction false} HexDigitsAt(bytes: Bytes, i: nat)
    requires i < |bytes|
    ensures BytesToHex(bytes)[2 * i] == "0123456789abcdef"[Nat(bytes[i]) / 16]
    ensures BytesToHex(bytes)[2 * i + 1] == "0123456789abcdef"[Nat(bytes[i]) % 16]
    decreases |bytes|
  {
    hide Nat, HighDigit, LowDigit;
    if i == 0 {
      DigitsOf(bytes[0]);
    } else {
      HexDigitsAt(bytes[1..], i - 1);
      assert BytesToHex(bytes)[2..] == BytesToHex(bytes[1..]);
    }
  }

  // ---------- Round trips ----------

  predicate IsHexDigit(c: char) {
    '0' <= c <= '9' || 'a' <= c <= 'f' || 'A' <= c <= 'F'
  }

  function LowerCase(c: char): char {
    if 'A' <= c <= 'Z' then (c as int - 'A' as int + 'a' as int) as char else c
  }

  function Lower(text: string): (r: string)
    ensures |r| == |text|
    ensures forall i :: 0 <= i < |text| ==> r[i] == LowerCase(text[i])
  {
    seq(|text|, i requires 0 <= i < |text| => LowerCase(text[i]))
  }

  lemma DigitCode(k: nat)
    requires k < 16
    ensures DIGITS[k] == if k < 10 then (48 + k) as char else (87 + k) as char
  {
  }

  lemma NibbleOfDigit(k: nat)
    requires k < 16
    ensures HexNibble(DIGITS[k]) == Some(Octet(k))
  {
    hide Octet;
    DigitCode(k);
  }

  lemma JoinOfSplit(b: bv8)
    ensures JoinNibbles(b >> 4, b & 0x0F) == b
  {
  }

  lemma DigitsBack(b: bv8)
    ensures HexNibble(HighDigit(b)) == Some(b >> 4)
    ensures HexNibble(LowDigit(b)) == Some(b & 0x0F)
  {
    hide HexNibble, Nat, Octet;
    NibbleRange(b);
    NibbleOfDigit(Nat(b >> 4));
    NibbleOfDigit(Nat(b & 0x0F));
    OctetOfNat(b >> 4);
    OctetOfNat(b & 0x0F);
  }

  lemma {:induction false} PairsOfHex(bytes: Bytes)
    ensures Pairs(BytesToHex(bytes)) == Some(bytes)
  {
    hide HexNibble, JoinNibbles, HighDigit, LowDigit;
    if bytes != [] {
      var text := BytesToHex(bytes);
      assert text[2..] == BytesToHex(bytes[1..]);
      DigitsBack(bytes[0]);
      JoinOfSplit(bytes[0]);
      PairsOfHex(bytes[1..]);
      assert bytes == [bytes[0]] + bytes[1..];
    }
  }

  /** Text written for at most 278 octets reads back as those octets; longer text is refused. */
  lemma HexRoundTrip(bytes: Bytes)
    ensures BytesFromHex(BytesToHex(bytes)) == if |bytes| <= 278 then Some(bytes) else None
  {
    hide Pairs, BytesToHex;
    PairsOfHex(bytes);
  }

  lemma NibbleCode(c: char)
    ensures HexNibble(c).Some? <==> IsHexDigit(c)
    ensures HexNibble(c).Some? ==> Nat(HexNibble(c).value) < 16 && DIGITS[Nat(HexNibble(c).value)] == LowerCase(c)
  {
    hide Octet, Nat;
    if IsHexDigit(c) {
      var k := if '0' <= c <= '9' then c as int - 48 else if 'a' <= c <= 'f' then c as int - 87 else c as int - 55;
      DigitCode(k);
    }
  }

  lemma SmallNibble(h: bv8)
    requires Nat(h) < 16
    ensures h & 0xF0 == 0
  {
  }

  lemma SplitOfJoin(h: bv8, l: bv8)
    requires h & 0xF0 == 0 && l & 0xF0 == 0
    ensures JoinNibbles(h, l) >> 4 == h && JoinNibbles(h, l) & 0x0F == l
  {
  }

  lemma PairBack(a: char, b: char)
    requires IsHexDigit(a) && IsHexDigit(b)
    ensures HexNibble(a).Some? && HexNibble(b).Some?
    ensures var octet := JoinNibbles(HexNibble(a).value, HexNibble(b).value);
            HighDigit(octet) == LowerCase(a) && LowDigit(octet) == LowerCase(b)
  {
    hide HexNibble, Nat, JoinNibbles, LowerCase, IsHexDigit;
    NibbleCode(a);
    NibbleCode(b);
    var h, l := HexNibble(a).value, HexNibble(b).value;
    SmallNibble(h);
    SmallNibble(l);
    SplitOfJoin(h, l);
  }

  lemma {:induction false} HexOfPairs(text: string)
    requires |text| % 2 == 0
    ensures Pairs(text).Some? <==> forall i :: 0 <= i < |text| ==> IsHexDigit(text[i])
    ensures Pairs(text).Some? ==> BytesToHex(Pairs(text).value) == Lower(text)
  {
    hide HexNibble, JoinNibbles, HighDigit, LowDigit, LowerCase, IsHexDigit;
    if text != "" {
      var rest := text[2..];
      NibbleCode(text[0]);
      NibbleCode(text[1]);
      HexOfPairs(rest);
      assert forall i :: 2 <= i < |text| ==> text[i] == rest[i - 2];
      if Pairs(text).Some? {
        PairBack(text[0], text[1]);
        var octet := JoinNibbles(HexNibble(text[0]).value, HexNibble(text[1]).value);
        assert Pairs(text).value[1..] == Pairs(rest).value;
        assert BytesToHex(Pairs(text).value) == [HighDigit(octet), LowDigit(octet)] + Lower(rest);
        assert Lower(text) == [LowerCase(text[0]), LowerCase(text[1])] + Lower(rest);
      }
    }
  }

  /** Exactly the even-length texts of hexadecimal digits up to 556 characters are accepted, case ignored. */
  lemma AcceptedHex(text: string)
    ensures BytesFromHex(text).Some? <==>
            |text| % 2 == 0 && |text| <= 556 && forall i :: 0 <= i < |text| ==> IsHexDigit(text[i])
    ensures BytesFromHex(text).Some? ==> BytesToHex(BytesFromHex(text).value) == Lower(text)
  {
    if |text| % 2 == 0 {
      HexOfPairs(text);
    }
  }
}
