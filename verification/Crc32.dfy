/** The CRC-32 of Inc/crc32.h and of ethernet_frame_crc in Src/w5x00_lwip.c. */
module Crc32 {

  // ----- The operations of the two C sources on uint32_t -----

  // They have names so that the proofs below can reason by the laws of these operations.
  const POLYNOMIAL: bv32 := 0xEDB88320

  function Xor(a: bv32, b: bv32): (r: bv32) {
    a ^ b
  }

  function Half(c: bv32): (r: bv32) {
    c >> 1
  }

  predicate Odd(c: bv32) {
    c & 1 == 1
  }

  function Widen(b: bv8): (r: bv32) {
    b as bv32
  }

  function LowByte(c: bv32): (r: bv8) {
    (c & 0xFF) as bv8
  }

  function High(c: bv32): (r: bv32) {
    c & 0xFFFFFF00
  }

  function Down8(c: bv32): (r: bv32) {
    c >> 8
  }

  function HalfOctet(o: bv8): (r: bv8) {
    o >> 1
  }

  function Flip(c: bv32): (r: bv32) {
    c ^ 0xFFFFFFFF
  }

  function Mix(c: bv32, b: bv8): (r: bv32) {
    Xor(c, Widen(b))
  }

  // ----- The register -----

  // One division step of the register, least significant bit first.
  function Shift1(c: bv32): (r: bv32) {
    if Odd(c) then Xor(POLYNOMIAL, Half(c)) else Half(c)
  }

  function ShiftN(c: bv32, n: nat): (r: bv32)
    decreases n
  {
    if n == 0 then c else ShiftN(Shift1(c), n - 1)
  }

  function Fold(c: bv32, s: seq<bv8>): (r: bv32)
    decreases s
  {
    if s == [] then c else Fold(ShiftN(Mix(c, s[0]), 8), s[1..])
  }

  function Crc(initial: bv32, s: seq<bv8>): (r: bv32) {
    Flip(Fold(Flip(initial), s))
  }

  // ----- Laws of the operations -----

  lemma XorAssociates(a: bv32, b: bv32, c: bv32)
    ensures Xor(a, Xor(b, c)) == Xor(Xor(a, b), c)
  {
  }

  lemma XorCommutes(a: bv32, b: bv32)
    ensures Xor(a, b) == Xor(b, a)
  {
  }

  lemma XorUndoes(a: bv32, b: bv32)
    ensures Xor(a, Xor(a, b)) == b
  {
  }

  lemma XorZero(a: bv32)
    ensures Xor(a, 0) == a
  {
  }

  lemma XorHalf(a: bv32, b: bv32)
    ensures Half(Xor(a, b)) == Xor(Half(a), Half(b))
  {
  }

  lemma XorOdd(a: bv32, b: bv32)
    ensures Odd(Xor(a, b)) == (Odd(a) != Odd(b))
  {
  }

  lemma XorCancel(a: bv32, b: bv32, m: bv32)
    requires Xor(m, a) == Xor(m, b)
    ensures a == b
  {
    XorUndoes(m, a);
    XorUndoes(m, b);
  }

  lemma FlipTwice(a: bv32)
    ensures Flip(Flip(a)) == a
  {
  }

  lemma FlipZero()
    ensures Flip(0) == 0xFFFFFFFF
  {
  }

  lemma SplitLow(c: bv32)
    ensures c == Xor(Widen(LowByte(c)), High(c))
  {
  }

  lemma HighHasNoLow(c: bv32)
    ensures High(c) & 0xFF == 0
  {
  }

  lemma MixKeepsHigh(c: bv32, b: bv8)
    ensures Down8(High(Mix(c, b))) == Down8(c)
  {
  }

  lemma HalfWiden(o: bv8)
    ensures Half(Widen(o)) == Widen(HalfOctet(o))
  {
  }

  // Half and Odd determine a word; the generator's top bit tells what Shift1 did.
  lemma Shift1Injective(a: bv32, b: bv32)
    requires Shift1(a) == Shift1(b)
    ensures a == b
  {
  }

  // ----- The register step is linear and injective -----

  lemma Shift1Linear(a: bv32, b: bv32)
    ensures Shift1(Xor(a, b)) == Xor(Shift1(a), Shift1(b))
  {
    var p, x, y := POLYNOMIAL, Half(a), Half(b);
    XorHalf(a, b);
    XorOdd(a, b);
    if Odd(a) && Odd(b) {
      XorAssociates(Xor(p, x), p, y);
      XorCommutes(Xor(p, x), p);
      XorUndoes(p, x);
    } else if Odd(a) {
      XorAssociates(p, x, y);
    } else if Odd(b) {
      XorAssociates(p, x, y);
      XorCommutes(p, x);
      XorAssociates(x, p, y);
    }
  }

  lemma {:induction false} ShiftNLinear(a: bv32, b: bv32, n: nat)
    ensures ShiftN(Xor(a, b), n) == Xor(ShiftN(a, n), ShiftN(b, n))
    decreases n
  {
    if n > 0 {
      Shift1Linear(a, b);
      ShiftNLinear(Shift1(a), Shift1(b), n - 1);
    }
  }

  lemma {:induction false} ShiftNInjective(a: bv32, b: bv32, n: nat)
    requires ShiftN(a, n) == ShiftN(b, n)
    ensures a == b
    decreases n
  {
    if n > 0 {
      ShiftNInjective(Shift1(a), Shift1(b), n - 1);
      Shift1Injective(a, b);
    }
  }

  lemma {:induction false} ShiftNLast(c: bv32, n: nat)
    ensures ShiftN(c, n + 1) == Shift1(ShiftN(c, n))
    decreases n
  {
    if n > 0 {
      ShiftNLast(Shift1(c), n - 1);
    }
  }

  lemma MixCancel(c: bv32, d: bv32, b: bv8)
    requires Mix(c, b) == Mix(d, b)
    ensures c == d
  {
    XorCommutes(c, Widen(b));
    XorCommutes(d, Widen(b));
    XorCancel(c, d, Widen(b));
  }

  lemma {:induction false} FoldInjective(c: bv32, d: bv32, s: seq<bv8>)
    requires Fold(c, s) == Fold(d, s)
    ensures c == d
    decreases s
  {
    if s != [] {
      FoldInjective(ShiftN(Mix(c, s[0]), 8), ShiftN(Mix(d, s[0]), 8), s[1..]);
      ShiftNInjective(Mix(c, s[0]), Mix(d, s[0]), 8);
      MixCancel(c, d, s[0]);
    }
  }

  // ----- Streaming -----

  lemma {:induction false} FoldConcat(c: bv32, a: seq<bv8>, b: seq<bv8>)
    ensures Fold(c, a + b) == Fold(Fold(c, a), b)
    decreases a
  {
    if a == [] {
      assert a + b == b;
    } else {
      assert (a + b)[1..] == a[1..] + b;
      FoldConcat(ShiftN(Mix(c, a[0]), 8), a[1..], b);
    }
  }

  lemma FoldAppend(c: bv32, s: seq<bv8>, b: bv8)
    ensures Fold(c, s + [b]) == ShiftN(Mix(Fold(c, s), b), 8)
  {
    FoldConcat(c, s, [b]);
    assert [b][1..] == [];
  }

  // Feeding a buffer in two pieces through the stored result is feeding it at once.
  lemma Streaming(initial: bv32, a: seq<bv8>, b: seq<bv8>)
    ensures Crc(Crc(initial, a), b) == Crc(initial, a + b)
  {
    FlipTwice(Fold(Flip(initial), a));
    FoldConcat(Flip(initial), a, b);
  }

  // A running accumulator reproduces the CRC of a buffer exactly when it starts at zero.
  lemma CrcFromAccumulator(acc: bv32, s: seq<bv8>)
    ensures Crc(acc, s) == Crc(0, s) <==> acc == 0
  {
    if Crc(acc, s) == Crc(0, s) {
      FlipTwice(Fold(Flip(acc), s));
      FlipTwice(Fold(Flip(0), s));
      FoldInjective(Flip(acc), Flip(0), s);
      FlipTwice(acc);
      FlipTwice(0);
    }
  }

  // ----- The table-driven form -----

  lemma EvenShift(c: bv32)
    requires c & 1 == 0
    ensures Shift1(c) == c >> 1
  {
  }

  // Zero bits only move right: one, two, four and eight of them.
  lemma Drop1(c: bv32, n: nat)
    requires c & 1 == 0
    ensures ShiftN(c, n + 1) == ShiftN(c >> 1, n)
  {
    EvenShift(c);
  }

  lemma Drop2(c: bv32, n: nat)
    requires c & 0x3 == 0
    ensures ShiftN(c, n + 2) == ShiftN(c >> 2, n)
  {
    Drop1(c, n + 1);
    Drop1(c >> 1, n);
  }

  lemma Drop4(c: bv32, n: nat)
    requires c & 0xF == 0
    ensures ShiftN(c, n + 4) == ShiftN(c >> 4, n)
  {
    Drop2(c, n + 2);
    Drop2(c >> 2, n);
  }

  lemma Drop8(c: bv32)
    requires c & 0xFF == 0
    ensures ShiftN(c, 8) == Down8(c)
  {
    Drop4(c, 4);
    Drop4(c >> 4, 0);
  }

  // step8(c ^ b) = table[(c ^ b) & 0xFF] ^ (c >> 8)
  lemma TableStep(c: bv32, b: bv8)
    ensures ShiftN(Mix(c, b), 8) == Xor(ShiftN(Widen(LowByte(Mix(c, b))), 8), Down8(c))
  {
    var x := Mix(c, b);
    SplitLow(x);
    ShiftNLinear(Widen(LowByte(x)), High(x), 8);
    HighHasNoLow(x);
    Drop8(High(x));
    MixKeepsHigh(c, b);
  }

  // What the table holds at index i: eight steps of i.
  function TableEntry(i: int): (r: bv32)
    requires 0 <= i < 256
  {
    ShiftN(Widen(i as bv8), 8)
  }

  ghost predicate Filled(table: seq<bv32>, n: nat) {
    && |table| == 256
    && forall i | 0 <= i < n && i < 256 :: table[i] == TableEntry(i)
  }

  ghost predicate IsTable(table: seq<bv32>) {
    Filled(table, 256)
  }

  lemma FilledExtend(table: seq<bv32>, n: nat, c: bv32)
    requires Filled(table, n) && n < 256 && c == TableEntry(n)
    ensures Filled(table[n := c], n + 1)
  {
  }

  lemma EntryOfByte(b: bv8)
    ensures TableEntry(b as int) == ShiftN(Widen(b), 8)
  {
    assert (b as int) as bv8 == b;
  }

  method GenerateTable(table: array<bv32>)
    requires table.Length == 256
    modifies table
    ensures IsTable(table[..])
  {
    for i := 0 to 256
      invariant Filled(table[..], i)
    {
      var c: bv32 := Widen(i as bv8);
      ghost var start, before := c, table[..];
      for j := 0 to 8
        invariant c == ShiftN(start, j)
        invariant table[..] == before
      {
        ShiftNLast(start, j);
        if Odd(c) {
          c := Xor(POLYNOMIAL, Half(c));
        } else {
          c := Half(c);
        }
      }
      table[i] := c;
      FilledExtend(before, i, c);
    }
  }

  lemma FoldPrefix(c: bv32, s: seq<bv8>, i: nat)
    requires i < |s|
    ensures Fold(c, s[..i + 1]) == ShiftN(Mix(Fold(c, s[..i]), s[i]), 8)
  {
    assert s[..i] + [s[i]] == s[..i + 1];
    FoldAppend(c, s[..i], s[i]);
  }

  lemma LookUp(table: seq<bv32>, c: bv32, b: bv8)
    requires IsTable(table)
    ensures ShiftN(Mix(c, b), 8) == Xor(table[LowByte(Mix(c, b)) as int], Down8(c))
  {
    TableStep(c, b);
    EntryOfByte(LowByte(Mix(c, b)));
  }

  method Update(table: array<bv32>, initial: bv32, buf: seq<bv8>) returns (r: bv32)
    requires IsTable(table[..])
    ensures r == Crc(initial, buf)
  {
    var c: bv32 := Flip(initial);
    for i := 0 to |buf|
      invariant c == Fold(Flip(initial), buf[..i])
    {
      FoldPrefix(Flip(initial), buf, i);
      LookUp(table[..], c, buf[i]);
      c := Xor(table[LowByte(Mix(c, buf[i])) as int], Down8(c));
    }
    assert buf[..|buf|] == buf;
    r := Flip(c);
  }

  // ----- The bit-serial form -----

  function BitStep(c: bv32, o: bv8): (r: bv32) {
    if Odd(Mix(c, o)) then Xor(Half(c), POLYNOMIAL) else Half(c)
  }

  // The octet's low bit decides the step; its other bits stay mixed into the register.
  lemma BitSerial(c: bv32, o: bv8)
    ensures Mix(BitStep(c, o), HalfOctet(o)) == Shift1(Mix(c, o))
  {
    XorHalf(c, Widen(o));
    HalfWiden(o);
    if Odd(Mix(c, o)) {
      XorCommutes(Half(c), POLYNOMIAL);
      XorAssociates(POLYNOMIAL, Half(c), Half(Widen(o)));
    }
  }

  // What is left of an octet after n right shifts.
  function OctetAfter(o: bv8, n: nat): (r: bv8) {
    if n == 0 then o else HalfOctet(OctetAfter(o, n - 1))
  }

  lemma OctetUsedUp(o: bv8)
    ensures OctetAfter(o, 8) == 0
  {
    assert OctetAfter(o, 1) == o >> 1;
    assert OctetAfter(o, 2) == o >> 2;
    assert OctetAfter(o, 3) == o >> 3;
    assert OctetAfter(o, 4) == o >> 4;
    assert OctetAfter(o, 5) == o >> 5;
    assert OctetAfter(o, 6) == o >> 6;
    assert OctetAfter(o, 7) == o >> 7;
  }

  lemma MixZero(c: bv32)
    ensures Mix(c, 0) == c
  {
    assert Widen(0) == 0;
    XorZero(c);
  }

  // The inner loop's invariant after `bit` bits of octet o.
  ghost predicate Consumed(crc: bv32, octet: bv8, start: bv32, o: bv8, bit: nat) {
    octet == OctetAfter(o, bit) && Mix(crc, octet) == ShiftN(start, bit)
  }

  lemma ConsumeBit(crc: bv32, octet: bv8, start: bv32, o: bv8, bit: nat)
    requires Consumed(crc, octet, start, o, bit)
    ensures Consumed(BitStep(crc, octet), HalfOctet(octet), start, o, bit + 1)
  {
    BitSerial(crc, octet);
    ShiftNLast(start, bit);
  }

  lemma ConsumedAll(crc: bv32, octet: bv8, start: bv32, o: bv8)
    requires Consumed(crc, octet, start, o, 8)
    ensures crc == ShiftN(start, 8)
  {
    OctetUsedUp(o);
    MixZero(crc);
  }

  method EthernetFrameCrc(data: seq<bv8>) returns (r: bv32)
    ensures r == Crc(0, data)
  {
    FlipZero();
    var crc: bv32 := 0xFFFFFFFF;
    for i := 0 to |data|
      invariant crc == Fold(Flip(0), data[..i])
    {
      FoldPrefix(Flip(0), data, i);
      var octet := data[i];
      ghost var start := Mix(crc, octet);
      for bit := 0 to 8
        invariant Consumed(crc, octet, start, data[i], bit)
      {
        ConsumeBit(crc, octet, start, data[i], bit);
        if Odd(Mix(crc, octet)) {
          crc := Half(crc);
          crc := Xor(crc, POLYNOMIAL);
        } else {
          crc := Half(crc);
        }
        octet := HalfOctet(octet);
      }
      ConsumedAll(crc, octet, start, data[i]);
    }
    assert data[..|data|] == data;
    r := Flip(crc);
  }
}
