/**
 Fixed-width words: their octets, and their numeric values.

 The program computes on std::uint16_t and std::uint32_t. Fields that are only shifted, masked and
 compared are modelled as bit vectors; lengths and addresses, which take part in range arithmetic,
 are modelled as bounded integers. The functions here connect the two, one octet at a time.
 */
module Words {

  type Bytes = seq<bv8>

  datatype Option<+T> = None | Some(value: T)

  type U16 = n: int | 0 <= n < 0x1_0000

  type U32 = n: int | 0 <= n < 0x1_0000_0000

  // ---------- Octets of a word, most significant first ----------

  function High16(w: bv16): bv8 {
    ((w >> 8) & 0xFF) as bv8
  }

  function Low16(w: bv16): bv8 {
    (w & 0xFF) as bv8
  }

  function Join16(h: bv8, l: bv8): bv16 {
    ((h as bv16) << 8) | (l as bv16)
  }

  function First32(w: bv32): bv8 {
    ((w >> 24) & 0xFF) as bv8
  }

  function Second32(w: bv32): bv8 {
    ((w >> 16) & 0xFF) as bv8
  }

  function Third32(w: bv32): bv8 {
    ((w >> 8) & 0xFF) as bv8
  }

  function Fourth32(w: bv32): bv8 {
    (w & 0xFF) as bv8
  }

  function Join32(a: bv8, b: bv8, c: bv8, d: bv8): bv32 {
    ((a as bv32) << 24) | ((b as bv32) << 16) | ((c as bv32) << 8) | (d as bv32)
  }

  lemma SplitJoined16(h: bv8, l: bv8)
    ensures High16(Join16(h, l)) == h && Low16(Join16(h, l)) == l
  {
  }

  lemma JoinSplit16(w: bv16)
    ensures Join16(High16(w), Low16(w)) == w
  {
  }

  lemma SplitJoined32(a: bv8, b: bv8, c: bv8, d: bv8)
    ensures var w := Join32(a, b, c, d);
            First32(w) == a && Second32(w) == b && Third32(w) == c && Fourth32(w) == d
  {
  }

  lemma JoinSplit32(w: bv32)
    ensures Join32(First32(w), Second32(w), Third32(w), Fourth32(w)) == w
  {
  }

  // ---------- Numeric values ----------

  function Nat(b: bv8): (n: nat)
    ensures n < 0x100
  {
    b as nat
  }

  lemma NatOfSuccessor(b: bv8)
    requires b != 0xFF
    ensures Nat(b + 1) == Nat(b) + 1
  {
  }

  /** The octet of a number, counted up from zero. */
  function Octet(n: nat): (b: bv8)
    requires n < 0x100
    ensures Nat(b) == n
  {
    if n == 0 then 0
    else
      NatOfSuccessor(Octet(n - 1));
      Octet(n - 1) + 1
  }

  lemma NatInjective(a: bv8, b: bv8)
    requires Nat(a) == Nat(b)
    ensures a == b
  {
    assert (a as nat) as bv8 == a;
    assert (b as nat) as bv8 == b;
  }

  lemma OctetOfNat(b: bv8)
    ensures Octet(Nat(b)) == b
  {
    hide Nat;
    NatInjective(Octet(Nat(b)), b);
  }

  function Word16(n: U16): bv16 {
    Join16(Octet(n / 0x100), Octet(n % 0x100))
  }

  function Value16(w: bv16): U16 {
    Nat(High16(w)) * 0x100 + Nat(Low16(w))
  }

  function Word32(n: U32): bv32 {
    Join32(Octet(n / 0x100_0000), Octet(n / 0x1_0000 % 0x100), Octet(n / 0x100 % 0x100), Octet(n % 0x100))
  }

  function Value32(w: bv32): U32 {
    Nat(First32(w)) * 0x100_0000 + Nat(Second32(w)) * 0x1_0000 + Nat(Third32(w)) * 0x100 + Nat(Fourth32(w))
  }

  lemma ValueOfWord16(n: U16)
    ensures Value16(Word16(n)) == n
  {
    hide Octet, Nat, Join16, High16, Low16;
    SplitJoined16(Octet(n / 0x100), Octet(n % 0x100));
  }

  lemma WordOfValue16(w: bv16)
    ensures Word16(Value16(w)) == w
  {
    hide Octet, Nat, Join16, High16, Low16;
    OctetOfNat(High16(w));
    OctetOfNat(Low16(w));
    assert Value16(w) / 0x100 == Nat(High16(w)) && Value16(w) % 0x100 == Nat(Low16(w));
    JoinSplit16(w);
  }

  lemma Digits32(n: U32)
    ensures n == n / 0x100_0000 * 0x100_0000 + n / 0x1_0000 % 0x100 * 0x1_0000 + n / 0x100 % 0x100 * 0x100 + n % 0x100
  {
    assert n / 0x1_0000 == n / 0x100 / 0x100;
    assert n / 0x100_0000 == n / 0x1_0000 / 0x100;
  }

  lemma ValueOfWord32(n: U32)
    ensures Value32(Word32(n)) == n
  {
    hide Octet, Nat, Join32, First32, Second32, Third32, Fourth32;
    Digits32(n);
    SplitJoined32(Octet(n / 0x100_0000), Octet(n / 0x1_0000 % 0x100), Octet(n / 0x100 % 0x100), Octet(n % 0x100));
  }

  // ---------- Big-endian numbers ----------

  /** The number that some octets spell, most significant first. */
  function Number(s: Bytes): nat {
    if s == [] then 0 else Number(s[..|s| - 1]) * 0x100 + Nat(s[|s| - 1])
  }

  lemma NumberAppend(s: Bytes, b: bv8)
    ensures Number(s + [b]) == Number(s) * 0x100 + Nat(b)
  {
    hide Nat;
    assert (s + [b])[..|s|] == s;
  }

  lemma NumberOfTwo(h: bv8, l: bv8)
    ensures Number([h, l]) == Nat(h) * 0x100 + Nat(l) == Value16(Join16(h, l))
  {
    hide Nat, Number, Join16, High16, Low16;
    SplitJoined16(h, l);
    NumberOfNone();
    NumberAppend([], h);
    NumberAppend([h], l);
    assert [] + [h] == [h] && [h] + [l] == [h, l];
  }

  lemma NumberOfNone()
    ensures Number([]) == 0
  {
  }

  lemma NumberOfFour(a: bv8, b: bv8, c: bv8, d: bv8)
    ensures Number([a, b, c, d]) == Value32(Join32(a, b, c, d))
  {
    hide Nat, Number, Join32, First32, Second32, Third32, Fourth32, Join16, Value16;
    SplitJoined32(a, b, c, d);
    NumberOfTwo(a, b);
    NumberAppend([a, b], c);
    NumberAppend([a, b, c], d);
    assert [a, b] + [c] == [a, b, c] && [a, b, c] + [d] == [a, b, c, d];
  }
}
