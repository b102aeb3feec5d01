/** What the CRC means: division of bit strings by the generator polynomial. */
module Crc32Theory {
  import opened Crc32
  import opened LittleEndian

  // ----- Messages and registers as bit strings, in transmission order -----

  // The n least significant bits of w, the least significant one first.
  function BitsOf(w: bv32, n: nat): (bits: seq<bool>)
    ensures |bits| == n
    decreases n
  {
    if n == 0 then [] else [Odd(w)] + BitsOf(Half(w), n - 1)
  }

  function ByteBits(b: bv8): (bits: seq<bool>)
    ensures |bits| == 8
  {
    BitsOf(Widen(b), 8)
  }

  function MessageBits(s: seq<bv8>): (bits: seq<bool>)
    ensures |bits| == 8 * |s|
  {
    if s == [] then [] else ByteBits(s[0]) + MessageBits(s[1..])
  }

  function FoldBits(c: bv32, bits: seq<bool>): (r: bv32)
    decreases bits
  {
    if bits == [] then c else FoldBits(Shift1(MixBit(c, bits[0])), bits[1..])
  }

  function MixBit(c: bv32, b: bool): (r: bv32) {
    if b then c ^ 1 else c
  }

  // The first bit of the string is the least significant bit of the word.
  function Pack(bits: seq<bool>): (r: bv32) {
    if bits == [] then 0 else PushBit(Pack(bits[1..]), bits[0])
  }

  function PushBit(w: bv32, b: bool): (r: bv32) {
    if b then (w << 1) | 1 else w << 1
  }

  function Shr(w: bv32, n: nat): (r: bv32)
    decreases n
  {
    if n == 0 then w else Shr(w >> 1, n - 1)
  }

  predicate TopClear(w: bv32) {
    w & 0x80000000 == 0
  }

  lemma {:induction false} ShrZero(n: nat)
    ensures Shr(0, n) == 0
    decreases n
  {
    if n > 0 {
      ShrZero(n - 1);
    }
  }

  lemma {:induction false} ShrSum(w: bv32, m: nat, n: nat)
    ensures Shr(w, m + n) == Shr(Shr(w, m), n)
    decreases m
  {
    if m > 0 {
      ShrSum(w >> 1, m - 1, n);
    }
  }

  lemma Shr1(w: bv32)
    ensures Shr(w, 1) == w >> 1
  {
  }

  lemma ShrCompose(w: bv32, x: bv32, y: bv32, m: nat, n: nat)
    requires Shr(w, m) == x && Shr(x, n) == y
    ensures Shr(w, m + n) == y
  {
    ShrSum(w, m, n);
  }

  lemma Shr2(w: bv32)
    ensures Shr(w, 2) == w >> 2
  {
    Shr1(w);
    Shr1(w >> 1);
    ShrCompose(w, w >> 1, (w >> 1) >> 1, 1, 1);
  }

  lemma Shr3(w: bv32)
    ensures Shr(w, 3) == w >> 3
  {
    Shr2(w);
    Shr1(w >> 2);
    ShrCompose(w, w >> 2, (w >> 2) >> 1, 2, 1);
  }

  lemma Shr4(w: bv32)
    ensures Shr(w, 4) == w >> 4
  {
    Shr2(w);
    Shr2(w >> 2);
    ShrCompose(w, w >> 2, (w >> 2) >> 2, 2, 2);
  }

  lemma Shr7(w: bv32)
    ensures Shr(w, 7) == w >> 7
  {
    Shr4(w);
    Shr3(w >> 4);
    ShrCompose(w, w >> 4, (w >> 4) >> 3, 4, 3);
  }

  lemma Shr8(w: bv32)
    ensures Shr(w, 8) == w >> 8
  {
    Shr4(w);
    Shr4(w >> 4);
    ShrCompose(w, w >> 4, (w >> 4) >> 4, 4, 4);
  }

  lemma Shr15(w: bv32)
    ensures Shr(w, 15) == w >> 15
  {
    Shr8(w);
    Shr7(w >> 8);
    ShrCompose(w, w >> 8, (w >> 8) >> 7, 8, 7);
  }

  lemma Shr16(w: bv32)
    ensures Shr(w, 16) == w >> 16
  {
    Shr8(w);
    Shr8(w >> 8);
    ShrCompose(w, w >> 8, (w >> 8) >> 8, 8, 8);
  }

  lemma Shr31(w: bv32)
    ensures Shr(w, 31) == w >> 31
  {
    Shr16(w);
    Shr15(w >> 16);
    ShrCompose(w, w >> 16, (w >> 16) >> 15, 16, 15);
  }

  lemma TopIsLast(w: bv32)
    requires w >> 31 == 0
    ensures TopClear(w)
  {
  }

  lemma ShortIsTopClear(w: bv32, n: nat)
    requires n <= 31 && Shr(w, n) == 0
    ensures TopClear(w)
  {
    ShrSum(w, n, 31 - n);
    ShrZero(31 - n);
    Shr31(w);
    TopIsLast(w);
  }

  lemma PushShift(w: bv32, b: bool)
    requires TopClear(w)
    ensures Half(PushBit(w, b)) == w
  {
  }

  lemma PushOdd(w: bv32, b: bool)
    ensures Odd(PushBit(w, b)) == b
  {
  }

  lemma {:induction false} PackShort(bits: seq<bool>)
    requires |bits| <= 32
    ensures Shr(Pack(bits), |bits|) == 0
    ensures |bits| <= 31 ==> TopClear(Pack(bits))
  {
    if bits != [] {
      PackShort(bits[1..]);
      PushShift(Pack(bits[1..]), bits[0]);
    }
    if |bits| <= 31 {
      ShortIsTopClear(Pack(bits), |bits|);
    }
  }

  lemma PushInjective(v: bv32, w: bv32, a: bool, b: bool)
    requires TopClear(v) && TopClear(w) && PushBit(v, a) == PushBit(w, b)
    ensures v == w && a == b
  {
    PushShift(v, a);
    PushShift(w, b);
    PushOdd(v, a);
    PushOdd(w, b);
  }

  lemma {:induction false} PackInjective(a: seq<bool>, b: seq<bool>)
    requires |a| == |b| <= 32 && Pack(a) == Pack(b)
    ensures a == b
  {
    if a != [] {
      PackShort(a[1..]);
      PackShort(b[1..]);
      PushInjective(Pack(a[1..]), Pack(b[1..]), a[0], b[0]);
      PackInjective(a[1..], b[1..]);
      assert a == [a[0]] + a[1..] && b == [b[0]] + b[1..];
    }
  }

  lemma PushMix(c: bv32, w: bv32, b: bool)
    ensures Xor(c, PushBit(w, b)) == Xor(MixBit(c, b), PushBit(w, false))
  {
  }

  lemma ShiftPushed(w: bv32)
    requires TopClear(w)
    ensures Shift1(PushBit(w, false)) == w
  {
    PushOdd(w, false);
    PushShift(w, false);
  }

  // Up to 32 message bits act as if they had been added to the register at once.
  lemma {:induction false} FoldIsShift(c: bv32, bits: seq<bool>)
    requires |bits| <= 32
    ensures FoldBits(c, bits) == ShiftN(Xor(c, Pack(bits)), |bits|)
    decreases bits
  {
    if bits != [] {
      var rest := bits[1..];
      PackShort(rest);
      FoldIsShift(Shift1(MixBit(c, bits[0])), rest);
      PushMix(c, Pack(rest), bits[0]);
      Shift1Linear(MixBit(c, bits[0]), PushBit(Pack(rest), false));
      ShiftPushed(Pack(rest));
    } else {
      XorZero(c);
    }
  }

  // ----- Bytes and bits agree -----

  lemma {:induction false} FoldBitsConcat(c: bv32, a: seq<bool>, b: seq<bool>)
    ensures FoldBits(c, a + b) == FoldBits(FoldBits(c, a), b)
    decreases a
  {
    if a == [] {
      assert a + b == b;
    } else {
      assert (a + b)[1..] == a[1..] + b;
      FoldBitsConcat(Shift1(MixBit(c, a[0])), a[1..], b);
    }
  }

  lemma MixBitCancel(c: bv32, d: bv32, b: bool)
    requires MixBit(c, b) == MixBit(d, b)
    ensures c == d
  {
  }

  lemma {:induction false} FoldBitsInjective(c: bv32, d: bv32, bits: seq<bool>)
    requires FoldBits(c, bits) == FoldBits(d, bits)
    ensures c == d
    decreases bits
  {
    if bits != [] {
      FoldBitsInjective(Shift1(MixBit(c, bits[0])), Shift1(MixBit(d, bits[0])), bits[1..]);
      Shift1Injective(MixBit(c, bits[0]), MixBit(d, bits[0]));
      MixBitCancel(c, d, bits[0]);
    }
  }

  lemma PushParts(w: bv32)
    ensures PushBit(Half(w), Odd(w)) == w
  {
  }

  lemma {:induction false} PackBitsOf(w: bv32, n: nat)
    requires Shr(w, n) == 0
    ensures Pack(BitsOf(w, n)) == w
    decreases n
  {
    if n > 0 {
      PackBitsOf(Half(w), n - 1);
      PushParts(w);
      assert BitsOf(w, n)[1..] == BitsOf(Half(w), n - 1);
    }
  }

  lemma ByteIsShort(b: bv8)
    ensures Widen(b) >> 8 == 0
  {
  }

  lemma PackByte(b: bv8)
    ensures Pack(ByteBits(b)) == Widen(b)
  {
    Shr8(Widen(b));
    ByteIsShort(b);
    PackBitsOf(Widen(b), 8);
  }

  lemma {:induction false} FoldIsFoldBits(c: bv32, s: seq<bv8>)
    ensures Fold(c, s) == FoldBits(c, MessageBits(s))
    decreases s
  {
    if s != [] {
      FoldIsShift(c, ByteBits(s[0]));
      PackByte(s[0]);
      FoldIsFoldBits(ShiftN(Mix(c, s[0]), 8), s[1..]);
      FoldBitsConcat(c, ByteBits(s[0]), MessageBits(s[1..]));
    }
  }

  lemma ByteBitsInjective(a: bv8, b: bv8)
    requires ByteBits(a) == ByteBits(b)
    ensures a == b
  {
    PackByte(a);
    PackByte(b);
    WidenInjective(a, b);
  }

  lemma WidenInjective(a: bv8, b: bv8)
    requires Widen(a) == Widen(b)
    ensures a == b
  {
  }

  lemma {:induction false} MessageBitsInjective(a: seq<bv8>, b: seq<bv8>)
    requires MessageBits(a) == MessageBits(b)
    ensures a == b
  {
    if a != [] {
      var x, y := MessageBits(a), MessageBits(b);
      assert ByteBits(a[0]) == x[..8] && ByteBits(b[0]) == y[..8];
      assert MessageBits(a[1..]) == x[8..] && MessageBits(b[1..]) == y[8..];
      ByteBitsInjective(a[0], b[0]);
      MessageBitsInjective(a[1..], b[1..]);
      assert a == [a[0]] + a[1..] && b == [b[0]] + b[1..];
    }
  }

  // ----- Burst errors -----

  // The two messages agree outside the window of n bits that starts at bit w.
  ghost predicate DifferWithin(a: seq<bv8>, b: seq<bv8>, w: nat, n: nat) {
    && |a| == |b|
    && forall i | 0 <= i < 8 * |a| && !(w <= i < w + n) :: MessageBits(a)[i] == MessageBits(b)[i]
  }

  // No two different strings of at most 32 bits lead to the same register.
  lemma WindowInjective(c: bv32, x: seq<bool>, y: seq<bool>)
    requires |x| == |y| <= 32 && FoldBits(c, x) == FoldBits(c, y)
    ensures x == y
  {
    FoldIsShift(c, x);
    FoldIsShift(c, y);
    ShiftNInjective(Xor(c, Pack(x)), Xor(c, Pack(y)), |x|);
    XorCancel(Pack(x), Pack(y), c);
    PackInjective(x, y);
  }

  lemma BitBurst(c: bv32, x: seq<bool>, y: seq<bool>, lo: nat, hi: nat)
    requires |x| == |y| && lo <= hi <= |x| && hi - lo <= 32
    requires x[..lo] == y[..lo] && x[hi..] == y[hi..]
    requires FoldBits(c, x) == FoldBits(c, y)
    ensures x == y
  {
    SplitFold(c, x, lo, hi);
    SplitFold(c, y, lo, hi);
    var d := FoldBits(c, x[..lo]);
    FoldBitsInjective(FoldBits(d, x[lo..hi]), FoldBits(d, y[lo..hi]), x[hi..]);
    WindowInjective(d, x[lo..hi], y[lo..hi]);
    assert x == x[..lo] + x[lo..hi] + x[hi..];
    assert y == y[..lo] + y[lo..hi] + y[hi..];
  }

  lemma CrcIsFoldBits(initial: bv32, s: seq<bv8>)
    ensures Flip(Crc(initial, s)) == FoldBits(Flip(initial), MessageBits(s))
  {
    FlipTwice(Fold(Flip(initial), s));
    FoldIsFoldBits(Flip(initial), s);
  }

  lemma WindowBurst(c: bv32, x: seq<bool>, y: seq<bool>, w: nat)
    requires |x| == |y|
    requires forall i | 0 <= i < |x| && !(w <= i < w + 32) :: x[i] == y[i]
    requires FoldBits(c, x) == FoldBits(c, y)
    ensures x == y
  {
    var lo := if w < |x| then w else |x|;
    var hi := if w + 32 < |x| then w + 32 else |x|;
    assert x[..lo] == y[..lo];
    assert x[hi..] == y[hi..];
    BitBurst(c, x, y, lo, hi);
  }

  // Two messages that differ, but only within 32 consecutive bits, never share a CRC.
  lemma BurstDetected(initial: bv32, a: seq<bv8>, b: seq<bv8>, w: nat)
    requires DifferWithin(a, b, w, 32) && a != b
    ensures Crc(initial, a) != Crc(initial, b)
  {
    if Crc(initial, a) == Crc(initial, b) {
      CrcIsFoldBits(initial, a);
      CrcIsFoldBits(initial, b);
      WindowBurst(Flip(initial), MessageBits(a), MessageBits(b), w);
      MessageBitsInjective(a, b);
    }
  }

  lemma SplitFold(c: bv32, x: seq<bool>, lo: nat, hi: nat)
    requires lo <= hi <= |x|
    ensures FoldBits(c, x) == FoldBits(FoldBits(FoldBits(c, x[..lo]), x[lo..hi]), x[hi..])
  {
    assert x == x[..lo] + x[lo..hi] + x[hi..];
    FoldBitsConcat(c, x[..lo] + x[lo..hi], x[hi..]);
    FoldBitsConcat(c, x[..lo], x[lo..hi]);
  }

  // ----- Long division by the generator polynomial -----

  // Addition over GF(2) of k to the first |k| positions of m.
  function AddFront(m: seq<bool>, k: seq<bool>): (r: seq<bool>)
    requires |k| <= |m|
    ensures |r| == |m|
  {
    seq(|m|, i requires 0 <= i < |m| => if i < |k| then m[i] != k[i] else m[i])
  }

  // x^26 + x^23 + ... + x + 1: the generator without its leading x^32, highest power first.
  function Generator(): (g: seq<bool>)
    ensures |g| == 32
  {
    seq(32, i => (31 - i) in {26, 23, 22, 16, 12, 11, 10, 8, 7, 5, 4, 2, 1, 0})
  }

  // The remainder of schoolbook division: while more than 32 coefficients are left,
  // drop the leading one, subtracting the generator if it is 1.
  function Remainder(p: seq<bool>): (r: seq<bool>)
    requires 32 <= |p|
    ensures |r| == 32
    decreases |p|
  {
    if |p| == 32 then p
    else if p[0] then Remainder(AddFront(p[1..], Generator()))
    else Remainder(p[1..])
  }

  // The register as coefficients, highest power first.
  function Bits32(c: bv32): (r: seq<bool>)
    ensures |r| == 32
  {
    BitsOf(c, 32)
  }

  lemma {:induction false} BitsOfLast(w: bv32, n: nat)
    ensures BitsOf(w, n + 1) == BitsOf(w, n) + [Odd(Shr(w, n))]
    decreases n
  {
    if n > 0 {
      BitsOfLast(Half(w), n - 1);
    }
  }

  lemma ShiftedOut(c: bv32)
    ensures !Odd(Half(c) >> 31)
  {
  }

  lemma Bits32Shift(c: bv32)
    ensures Bits32(Half(c)) == Bits32(c)[1..] + [false]
  {
    BitsOfLast(Half(c), 31);
    Shr31(Half(c));
    ShiftedOut(c);
    assert BitsOf(c, 32)[1..] == BitsOf(Half(c), 31);
  }

  lemma AddFrontCons(x: bool, y: bool, j: seq<bool>, k: seq<bool>)
    requires |j| == |k|
    ensures AddFront([x] + j, [y] + k) == [x != y] + AddFront(j, k)
  {
  }

  lemma {:induction false} BitsOfXor(a: bv32, b: bv32, n: nat)
    ensures BitsOf(Xor(a, b), n) == AddFront(BitsOf(a, n), BitsOf(b, n))
    decreases n
  {
    if n > 0 {
      hide Xor, Half, Odd, AddFront;
      XorHalf(a, b);
      XorOdd(a, b);
      BitsOfXor(Half(a), Half(b), n - 1);
      AddFrontCons(Odd(a), Odd(b), BitsOf(Half(a), n - 1), BitsOf(Half(b), n - 1));
    }
  }

  // FourBits peels the four lowest bits off a word.
  lemma FourBits(w: bv32, w1: bv32, w2: bv32, w3: bv32, w4: bv32, n: nat)
    requires w1 == Half(w) && w2 == Half(w1) && w3 == Half(w2) && w4 == Half(w3)
    ensures BitsOf(w, n + 4) == [Odd(w), Odd(w1), Odd(w2), Odd(w3)] + BitsOf(w4, n)
  {
    assert BitsOf(w3, n + 1) == [Odd(w3)] + BitsOf(w4, n);
    assert BitsOf(w2, n + 2) == [Odd(w2)] + BitsOf(w3, n + 1);
    assert BitsOf(w1, n + 3) == [Odd(w1)] + BitsOf(w2, n + 2);
  }

  lemma PolynomialHigh()
    ensures BitsOf(POLYNOMIAL, 32)
         == [false, false, false, false, false, true, false, false,
             true, true, false, false, false, false, false, true] + BitsOf(0xEDB8, 16)
  {
    FourBits(0xEDB88320, 0x76DC4190, 0x3B6E20C8, 0x1DB71064, 0x0EDB8832, 28);
    FourBits(0x0EDB8832, 0x076DC419, 0x03B6E20C, 0x01DB7106, 0x00EDB883, 24);
    FourBits(0x00EDB883, 0x0076DC41, 0x003B6E20, 0x001DB710, 0x000EDB88, 20);
    FourBits(0x000EDB88, 0x00076DC4, 0x0003B6E2, 0x0001DB71, 0x0000EDB8, 16);
  }

  lemma PolynomialLow()
    ensures BitsOf(0xEDB8, 16)
         == [false, false, false, true, true, true, false, true,
             true, false, true, true, false, true, true, true]
  {
    FourBits(0x0000EDB8, 0x000076DC, 0x00003B6E, 0x00001DB7, 0x00000EDB, 12);
    FourBits(0x00000EDB, 0x0000076D, 0x000003B6, 0x000001DB, 0x000000ED, 8);
    FourBits(0x000000ED, 0x00000076, 0x0000003B, 0x0000001D, 0x0000000E, 4);
    FourBits(0x0000000E, 0x00000007, 0x00000003, 0x00000001, 0x00000000, 0);
  }

  lemma Bits32Polynomial()
    ensures Bits32(POLYNOMIAL) == Generator()
  {
    PolynomialHigh();
    PolynomialLow();
  }

  function Zeros(n: nat): (z: seq<bool>)
    ensures |z| == n
  {
    seq(n, _ => false)
  }

  lemma MixBitShift(c: bv32, b: bool)
    ensures Half(MixBit(c, b)) == Half(c)
    ensures Odd(MixBit(c, b)) == (Odd(c) != b)
  {
  }

  lemma AddFrontZeros(r: seq<bool>)
    ensures AddFront(Zeros(|r|), r) == r
  {
  }

  lemma AddFrontTwice(m: seq<bool>, j: seq<bool>, k: seq<bool>)
    requires |j| == |k| <= |m|
    ensures AddFront(AddFront(m, j), k) == AddFront(m, AddFront(j, k))
  {
  }

  // Dropping the leading coefficient of a dividend whose first 32 carry a register.
  lemma AddFrontTail(b: bool, m: seq<bool>, r: seq<bool>)
    requires |r| == 32 <= |m|
    ensures AddFront([b] + m, r)[0] == (b != r[0])
    ensures AddFront([b] + m, r)[1..] == AddFront(m, r[1..] + [false])
  {
  }

  lemma AddFrontSwap(j: seq<bool>, k: seq<bool>)
    requires |j| == |k|
    ensures AddFront(j, k) == AddFront(k, j)
  {
  }

  // One step of the register, coefficient by coefficient.
  lemma Bits32Step(d: bv32)
    ensures Bits32(Shift1(d))
         == if Odd(d) then AddFront(Bits32(d)[1..] + [false], Generator()) else Bits32(d)[1..] + [false]
  {
    Bits32Shift(d);
    if Odd(d) {
      BitsOfXor(POLYNOMIAL, Half(d), 32);
      Bits32Polynomial();
      AddFrontSwap(Bits32(d)[1..] + [false], Generator());
    }
  }

  lemma Bits32MixBit(c: bv32, b: bool)
    ensures Bits32(MixBit(c, b))[1..] == Bits32(c)[1..]
    ensures Odd(MixBit(c, b)) == (Bits32(c)[0] != b)
  {
    MixBitShift(c, b);
  }

  // One step of the register is one step of the division.
  lemma DivisionStep(c: bv32, b: bool, m: seq<bool>)
    requires 32 <= |m|
    ensures Remainder(AddFront([b] + m, Bits32(c))) == Remainder(AddFront(m, Bits32(Shift1(MixBit(c, b)))))
  {
    var r := Bits32(c);
    AddFrontTail(b, m, r);
    Bits32MixBit(c, b);
    Bits32Step(MixBit(c, b));
    if Odd(MixBit(c, b)) {
      AddFrontTwice(m, r[1..] + [false], Generator());
    }
  }

  lemma {:induction false} RegisterIsDivision(c: bv32, bits: seq<bool>)
    ensures Bits32(FoldBits(c, bits)) == Remainder(AddFront(bits + Zeros(32), Bits32(c)))
    decreases bits
  {
    if bits == [] {
      assert bits + Zeros(32) == Zeros(32);
      AddFrontZeros(Bits32(c));
    } else {
      RegisterIsDivision(Shift1(MixBit(c, bits[0])), bits[1..]);
      assert bits + Zeros(32) == [bits[0]] + (bits[1..] + Zeros(32));
      DivisionStep(c, bits[0], bits[1..] + Zeros(32));
    }
  }

  // Section 8 of RFC 1952: the complement of the remainder of the message, its first
  // 32 bits complemented, times x^32, on division by the generator.
  lemma CrcIsLongDivision(s: seq<bv8>)
    ensures Bits32(Flip(Crc(0, s)))
         == Remainder(AddFront(MessageBits(s) + Zeros(32), seq(32, _ => true)))
  {
    CrcIsFoldBits(0, s);
    RegisterIsDivision(Flip(0), MessageBits(s));
    FlipZero();
    OnesBits();
  }

  lemma OnesHigh()
    ensures BitsOf(0xFFFFFFFF, 32) == seq(16, _ => true) + BitsOf(0xFFFF, 16)
  {
    FourBits(0xFFFFFFFF, 0x7FFFFFFF, 0x3FFFFFFF, 0x1FFFFFFF, 0x0FFFFFFF, 28);
    FourBits(0x0FFFFFFF, 0x07FFFFFF, 0x03FFFFFF, 0x01FFFFFF, 0x00FFFFFF, 24);
    FourBits(0x00FFFFFF, 0x007FFFFF, 0x003FFFFF, 0x001FFFFF, 0x000FFFFF, 20);
    FourBits(0x000FFFFF, 0x0007FFFF, 0x0003FFFF, 0x0001FFFF, 0x0000FFFF, 16);
  }

  lemma OnesLow()
    ensures BitsOf(0xFFFF, 16) == seq(16, _ => true)
  {
    FourBits(0x0000FFFF, 0x00007FFF, 0x00003FFF, 0x00001FFF, 0x00000FFF, 12);
    FourBits(0x00000FFF, 0x000007FF, 0x000003FF, 0x000001FF, 0x000000FF, 8);
    FourBits(0x000000FF, 0x0000007F, 0x0000003F, 0x0000001F, 0x0000000F, 4);
    FourBits(0x0000000F, 0x00000007, 0x00000003, 0x00000001, 0x00000000, 0);
  }

  lemma OnesBits()
    ensures Bits32(0xFFFFFFFF) == seq(32, _ => true)
  {
    OnesHigh();
    OnesLow();
  }

  lemma StepOfOne()
    ensures Shift1(1) == POLYNOMIAL
  {
  }

  lemma MixBitIsXor(c: bv32)
    ensures MixBit(c, true) == Xor(c, 1)
    ensures MixBit(c, false) == c
  {
  }

  lemma {:induction false} PackZeros(n: nat)
    ensures Pack(Zeros(n)) == 0
  {
    if n > 0 {
      PackZeros(n - 1);
      assert Zeros(n)[1..] == Zeros(n - 1);
    }
  }

  lemma PackGenerator()
    ensures Pack(Generator()) == POLYNOMIAL
  {
    Bits32Polynomial();
    ShrSum(POLYNOMIAL, 31, 1);
    Shr31(POLYNOMIAL);
    assert Shr(POLYNOMIAL >> 31, 1) == 0;
    PackBitsOf(POLYNOMIAL, 32);
  }

  // Adding the whole generator, 33 bits, goes unnoticed.
  lemma ThirtyThreeBitsEscape(c: bv32)
    ensures FoldBits(c, [true] + Generator()) == FoldBits(c, [false] + Zeros(32))
  {
    MixBitIsXor(c);
    Shift1Linear(c, 1);
    StepOfOne();
    assert ([true] + Generator())[1..] == Generator();
    assert ([false] + Zeros(32))[1..] == Zeros(32);
    FoldIsShift(Xor(Shift1(c), POLYNOMIAL), Generator());
    FoldIsShift(Shift1(c), Zeros(32));
    PackGenerator();
    PackZeros(32);
    XorZero(Shift1(c));
    XorCommutes(Shift1(c), POLYNOMIAL);
    XorCommutes(Xor(Shift1(c), POLYNOMIAL), POLYNOMIAL);
    XorUndoes(POLYNOMIAL, Shift1(c));
  }

  // ----- The window cannot be longer -----

  lemma MixBitLinear(c: bv32, d: bv32, a: bool, b: bool)
    ensures MixBit(Xor(c, d), a != b) == Xor(MixBit(c, a), MixBit(d, b))
  {
    MixBitIsXor(c);
    MixBitIsXor(d);
    MixBitIsXor(Xor(c, d));
    hide MixBit, Xor;
    XorCommutes(c, 1);
    XorAssociates(1, c, d);            // (1 + c) + d == 1 + (c + d)
    XorCommutes(Xor(c, d), 1);
    XorAssociates(c, d, 1);            // c + (d + 1) == (c + d) + 1
    XorAssociates(1, c, Xor(d, 1));
    XorUndoes(1, Xor(c, d));
  }

  // The register is linear in the message.
  lemma {:induction false} FoldBitsLinear(c: bv32, d: bv32, x: seq<bool>, y: seq<bool>)
    requires |x| == |y|
    ensures FoldBits(Xor(c, d), AddFront(x, y)) == Xor(FoldBits(c, x), FoldBits(d, y))
    decreases x
  {
    if x != [] {
      var z := AddFront(x, y);
      assert z[0] == (x[0] != y[0]) && z[1..] == AddFront(x[1..], y[1..]);
      hide AddFront, Shift1, MixBit, Xor;
      MixBitLinear(c, d, x[0], y[0]);
      Shift1Linear(MixBit(c, x[0]), MixBit(d, y[0]));
      FoldBitsLinear(Shift1(MixBit(c, x[0])), Shift1(MixBit(d, y[0])), x[1..], y[1..]);
    }
  }

  lemma {:induction false} FoldZeros(n: nat)
    ensures FoldBits(0, Zeros(n)) == 0
  {
    if n > 0 {
      MixBitIsXor(0);
      assert Zeros(n)[1..] == Zeros(n - 1);
      FoldZeros(n - 1);
    }
  }

  // The 33 bits of the generator at bit w of n, zeros elsewhere.
  function Pattern(w: nat, n: nat): (p: seq<bool>)
    requires w + 33 <= n
    ensures |p| == n
  {
    Zeros(w) + ([true] + Generator()) + Zeros(n - w - 33)
  }

  lemma PatternEscapes(w: nat, n: nat)
    requires w + 33 <= n
    ensures FoldBits(0, Pattern(w, n)) == 0
  {
    var g := [true] + Generator();
    FoldBitsConcat(0, Zeros(w) + g, Zeros(n - w - 33));
    FoldBitsConcat(0, Zeros(w), g);
    FoldZeros(w);
    ThirtyThreeBitsEscape(0);
    assert [false] + Zeros(32) == Zeros(33);
    FoldZeros(33);
    FoldZeros(n - w - 33);
  }

  // Every eight bits are the bits of a byte, so every bit string of whole bytes is a message.
  lemma ByteOfBits(bits: seq<bool>) returns (b: bv8)
    requires |bits| == 8
    ensures ByteBits(b) == bits
  {
    var p := Pack(bits);
    PackShort(bits);
    Shr8(p);
    b := LowByte(p);
    WidenLow(p);
    PackBitsOf(p, 8);
    PackInjective(BitsOf(p, 8), bits);
  }

  lemma WidenLow(p: bv32)
    requires p >> 8 == 0
    ensures Widen(LowByte(p)) == p
  {
  }

  lemma {:induction false} MessageOfBits(bits: seq<bool>) returns (s: seq<bv8>)
    requires |bits| % 8 == 0
    ensures MessageBits(s) == bits
    decreases bits
  {
    if bits == [] {
      s := [];
    } else {
      var b := ByteOfBits(bits[..8]);
      var rest := MessageOfBits(bits[8..]);
      s := [b] + rest;
      assert s[1..] == rest;
      assert bits == bits[..8] + bits[8..];
    }
  }

  // For every message and every window of 33 bits in it, there is a different message that
  // agrees with it outside the window and has the same CRC, whatever the initial value.
  lemma BurstEscapes(a: seq<bv8>, w: nat) returns (b: seq<bv8>)
    requires w + 33 <= 8 * |a|
    ensures b != a && DifferWithin(a, b, w, 33)
    ensures forall initial: bv32 :: Crc(initial, b) == Crc(initial, a)
  {
    hide MessageBits, FoldBits, Crc;
    var x, p := MessageBits(a), Pattern(w, 8 * |a|);
    var y := AddFront(x, p);
    b := MessageOfBits(y);
    assert y[w] != x[w] by {
      assert p[w];
    }
    forall i | 0 <= i < 8 * |a| && !(w <= i < w + 33)
      ensures y[i] == x[i]
    {
      assert !p[i];
    }
    forall initial: bv32
      ensures Crc(initial, b) == Crc(initial, a)
    {
      SameCrc(initial, a, b, p, w);
    }
  }

  lemma SameCrc(initial: bv32, a: seq<bv8>, b: seq<bv8>, p: seq<bool>, w: nat)
    requires w + 33 <= 8 * |a| && p == Pattern(w, 8 * |a|) && MessageBits(b) == AddFront(MessageBits(a), p)
    ensures Crc(initial, b) == Crc(initial, a)
  {
    hide MessageBits, FoldBits, Pattern;
    var c := Flip(initial);
    PatternEscapes(w, 8 * |a|);
    FoldBitsLinear(c, 0, MessageBits(a), p);
    XorZero(c);
    XorZero(FoldBits(c, MessageBits(a)));
    FoldIsFoldBits(c, a);
    FoldIsFoldBits(c, b);
  }

  // ----- The register as four bytes -----

  lemma {:induction false} BitsOfSplit(w: bv32, m: nat, n: nat)
    ensures BitsOf(w, m + n) == BitsOf(w, m) + BitsOf(Shr(w, m), n)
    decreases m
  {
    if m > 0 {
      BitsOfSplit(Half(w), m - 1, n);
      assert BitsOf(w, m + n) == [Odd(w)] + BitsOf(Half(w), m - 1 + n);
    }
  }

  // The eight lowest bits depend on the lowest byte only.
  lemma LowBits(w: bv32)
    ensures BitsOf(w, 8) == ByteBits(LowByte(w))
  {
    var v := Widen(LowByte(w));
    Halves(w);
    Halves(v);
    SameLowBits(w, v);
    hide Half, Odd, Widen, LowByte;
    assert BitsOf(w >> 8, 0) == BitsOf(v >> 8, 0);
    FourBits(w, w >> 1, w >> 2, w >> 3, w >> 4, 4);
    FourBits(w >> 4, w >> 5, w >> 6, w >> 7, w >> 8, 0);
    FourBits(v, v >> 1, v >> 2, v >> 3, v >> 4, 4);
    FourBits(v >> 4, v >> 5, v >> 6, v >> 7, v >> 8, 0);
  }

  lemma Halves(w: bv32)
    ensures Half(w) == w >> 1 && Half(w >> 1) == w >> 2 && Half(w >> 2) == w >> 3 && Half(w >> 3) == w >> 4
    ensures Half(w >> 4) == w >> 5 && Half(w >> 5) == w >> 6 && Half(w >> 6) == w >> 7 && Half(w >> 7) == w >> 8
  {
  }

  lemma SameLowBits(w: bv32, v: bv32)
    requires v == Widen(LowByte(w))
    ensures Odd(w) == Odd(v) && Odd(w >> 1) == Odd(v >> 1) && Odd(w >> 2) == Odd(v >> 2) && Odd(w >> 3) == Odd(v >> 3)
    ensures Odd(w >> 4) == Odd(v >> 4) && Odd(w >> 5) == Odd(v >> 5)
    ensures Odd(w >> 6) == Odd(v >> 6) && Odd(w >> 7) == Odd(v >> 7)
  {
  }

  lemma FirstByte(w: bv32, n: nat)
    ensures BitsOf(w, 8 + n) == ByteBits(LowByte(w)) + BitsOf(Down8(w), n)
  {
    LowBits(w);
    Shr8(w);
    BitsOfSplit(w, 8, n);
  }

  lemma FourBytes(w0: bv32, w1: bv32, w2: bv32, w3: bv32)
    requires Down8(w0) == w1 && Down8(w1) == w2 && Down8(w2) == w3
    ensures Bits32(w0) == MessageBits([LowByte(w0), LowByte(w1), LowByte(w2), LowByte(w3)])
  {
    hide BitsOf, ByteBits, LowByte, Down8, MessageBits;
    FirstByte(w0, 24);
    FirstByte(w1, 16);
    FirstByte(w2, 8);
    LowBits(w3);
    FourMessages(LowByte(w0), LowByte(w1), LowByte(w2), LowByte(w3));
  }

  lemma WordBytesAre(w: bv32, w1: bv32, w2: bv32, w3: bv32)
    requires Down8(w) == w1 && Down8(w1) == w2 && Down8(w2) == w3
    ensures WordBytes(w) == [LowByte(w), LowByte(w1), LowByte(w2), LowByte(w3)]
  {
  }

  // The four stored bytes are the register's bits, the least significant first.
  lemma WordBytesBits(w: bv32)
    ensures MessageBits(WordBytes(w)) == Bits32(w)
  {
    hide WordBytes, LowByte, Down8, MessageBits, Bits32;
    var w1 := Down8(w);
    var w2 := Down8(w1);
    var w3 := Down8(w2);
    WordBytesAre(w, w1, w2, w3);
    FourBytes(w, w1, w2, w3);
  }

  lemma FourMessages(a: bv8, b: bv8, c: bv8, d: bv8)
    ensures MessageBits([a, b, c, d]) == ByteBits(a) + (ByteBits(b) + (ByteBits(c) + ByteBits(d)))
  {
    hide ByteBits;
    assert [a, b, c, d][1..] == [b, c, d] && [b, c, d][1..] == [c, d] && [c, d][1..] == [d] && [d][1..] == [];
    assert ByteBits(d) + [] == ByteBits(d);
    assert MessageBits([d]) == ByteBits(d);
    assert MessageBits([c, d]) == ByteBits(c) + ByteBits(d);
    assert MessageBits([b, c, d]) == ByteBits(b) + (ByteBits(c) + ByteBits(d));
  }
}
