/** The unrolled one's-complement sum of Src/arch/checksum.c. */
module Checksum {
  const WORD_LIMIT: nat := 0x1_0000_0000

  // ----- The reference: section 2 of RFC 1071 -----

  // Addition of 16-bit words with end-around carry.
  function OnesAdd(a: nat, b: nat): (r: nat)
    requires a <= 0xFFFF && b <= 0xFFFF
    ensures r <= 0xFFFF
  {
    if a + b > 0xFFFF then a + b - 0xFFFF else a + b
  }

  // A 16-bit word as a little-endian machine loads it.
  function HalfWord(lo: bv8, hi: bv8): (r: nat)
    ensures r <= 0xFFFF
  {
    (lo as int) + 256 * (hi as int)
  }

  // The one's-complement sum, a last odd byte padded with zero.
  function OnesSum(s: seq<bv8>): (r: nat)
    ensures r <= 0xFFFF
  {
    if s == [] then 0
    else if |s| == 1 then HalfWord(s[0], 0)
    else OnesAdd(HalfWord(s[0], s[1]), OnesSum(s[2..]))
  }

  // The same sum without wrapping: even-index bytes plus 256 times odd-index bytes.
  function WordSum(s: seq<bv8>): (r: nat) {
    if s == [] then 0
    else if |s| == 1 then s[0] as int
    else HalfWord(s[0], s[1]) + WordSum(s[2..])
  }

  function Laps(k: int): (r: int) {
    0xFFFF * k
  }

  // Two totals with the same one's-complement value: equal modulo 65535, zero together.
  ghost predicate Same(a: nat, b: nat) {
    (a == 0 <==> b == 0) && exists k :: a == b + Laps(k)
  }

  lemma SameBy(a: nat, b: nat, k: int)
    requires a == b + 0xFFFF * k && (a == 0 <==> b == 0)
    ensures Same(a, b)
  {
    assert a == b + Laps(k);
  }

  lemma SameAdd(a: nat, b: nat, x: nat, y: nat)
    requires Same(a, b) && Same(x, y)
    ensures Same(a + x, b + y)
  {
    var j :| a == b + Laps(j);
    var k :| x == y + Laps(k);
    SameBy(a + x, b + y, j + k);
  }

  lemma SameTrans(a: nat, b: nat, c: nat)
    requires Same(a, b) && Same(b, c)
    ensures Same(a, c)
  {
    var j :| a == b + Laps(j);
    var k :| b == c + Laps(k);
    SameBy(a, c, j + k);
  }

  lemma SameTimes256(a: nat, b: nat)
    requires Same(a, b)
    ensures Same(256 * a, 256 * b)
  {
    var k :| a == b + Laps(k);
    SameBy(256 * a, 256 * b, 256 * k);
  }

  lemma SameRefl(a: nat)
    ensures Same(a, a)
  {
    SameBy(a, a, 0);
  }

  lemma OnesAddIsSum(w: nat, a: nat, b: nat)
    requires w <= 0xFFFF && a <= 0xFFFF && Same(a, b)
    ensures Same(OnesAdd(w, a), w + b)
  {
    var k :| a == b + Laps(k);
    SameBy(OnesAdd(w, a), w + b, if w + a > 0xFFFF then k - 1 else k);
  }

  lemma {:induction false} OnesSumIsWordSum(s: seq<bv8>)
    ensures Same(OnesSum(s), WordSum(s))
  {
    if |s| >= 2 {
      OnesSumIsWordSum(s[2..]);
      OnesAddIsSum(HalfWord(s[0], s[1]), OnesSum(s[2..]), WordSum(s[2..]));
    } else {
      SameRefl(WordSum(s));
    }
  }

  // Both sums are zero only if every byte is.
  lemma {:induction false} ZeroSumExact(s: seq<bv8>)
    ensures WordSum(s) == 0 <==> forall i | 0 <= i < |s| :: s[i] == 0
    ensures OnesSum(s) == 0 <==> WordSum(s) == 0
  {
    OnesSumIsWordSum(s);
    if |s| >= 2 {
      ZeroSumExact(s[2..]);
      assert forall i | 2 <= i < |s| :: s[i] == s[2..][i - 2];
      ByteZero(s[0]);
      ByteZero(s[1]);
    } else if |s| == 1 {
      ByteZero(s[0]);
    }
  }

  lemma ByteZero(b: bv8)
    ensures b as int == 0 <==> b == 0
  {
  }

  // 16 bits leave one canonical value.
  lemma Canonical(a: nat, b: nat)
    requires a <= 0xFFFF && b <= 0xFFFF && Same(a, b)
    ensures a == b
  {
    var k :| a == b + Laps(k);
    assert -1 <= k <= 1;
  }

  // ----- The registers -----

  // `adds r2, r4; adc r2, r2, #0`
  function AddCarry(r2: nat, r4: nat): (r: nat)
    requires r2 < WORD_LIMIT && r4 < WORD_LIMIT
    ensures r < WORD_LIMIT
  {
    var sum := r2 + r4;
    var carry := if sum >= WORD_LIMIT then 1 else 0;
    (sum % WORD_LIMIT + carry) % WORD_LIMIT
  }

  lemma AddCarryKeepsSum(r2: nat, r4: nat)
    requires r2 < WORD_LIMIT && r4 < WORD_LIMIT
    ensures Same(AddCarry(r2, r4), r2 + r4)
  {
    SameBy(AddCarry(r2, r4), r2 + r4, if r2 + r4 >= WORD_LIMIT then -0x10001 else 0);
  }

  // `ubfx r4, r2, #16, #16; ubfx r2, r2, #0, #16; adds r2, r4`
  function FoldOnce(r2: nat): (r: nat)
    requires r2 < WORD_LIMIT
    ensures r <= 0x1FFFE && (r2 <= 0x1FFFE ==> r <= 0xFFFF)
  {
    r2 / 0x10000 + r2 % 0x10000
  }

  lemma FoldKeepsSum(r2: nat)
    requires r2 < WORD_LIMIT
    ensures Same(FoldOnce(r2), r2)
  {
    SameBy(FoldOnce(r2), r2, -(r2 / 0x10000));
  }

  // `rev16 r2, r2` on a register that holds 16 bits
  function SwapBytes(r2: nat): (r: nat)
    requires r2 <= 0xFFFF
    ensures r <= 0xFFFF
  {
    (r2 % 256) * 256 + r2 / 256
  }

  lemma SwapIsTimes256(r2: nat)
    requires r2 <= 0xFFFF
    ensures Same(SwapBytes(r2), 256 * r2)
  {
    SameBy(SwapBytes(r2), 256 * r2, -(r2 / 256));
  }

  // ----- Totals -----

  lemma {:induction false} WordSumPair(s: seq<bv8>, a: bv8, b: bv8)
    requires |s| % 2 == 0
    ensures WordSum(s + [a, b]) == WordSum(s) + HalfWord(a, b)
  {
    if s == [] {
      assert [] + [a, b] == [a, b];
      assert [a, b][2..] == [];
    } else {
      WordSumPair(s[2..], a, b);
      assert (s + [a, b])[2..] == s[2..] + [a, b];
    }
  }

  lemma {:induction false} WordSumLast(s: seq<bv8>, a: bv8)
    requires |s| % 2 == 0
    ensures WordSum(s + [a]) == WordSum(s) + (a as int)
  {
    if s == [] {
      assert [] + [a] == [a];
    } else {
      WordSumLast(s[2..], a);
      assert (s + [a])[2..] == s[2..] + [a];
    }
  }

  // Moving every byte up one place multiplies the total by 256, modulo 65535.
  lemma {:induction false} WordSumShifted(t: seq<bv8>)
    ensures Same(256 * WordSum(t), WordSum([0] + t))
  {
    if t == [] {
      assert [0] + t == [0];
      SameRefl(0);
    } else if |t| == 1 {
      assert ([0] + t)[2..] == [];
      SameRefl(256 * WordSum(t));
    } else {
      var u := t[2..];
      WordSumShifted(u);
      assert ([0] + t)[2..] == [t[1]] + u;
      WordSumFirst(t[1], u);
      SwappedPair(t[0], t[1]);
      SameAdd(256 * HalfWord(t[0], t[1]), HalfWord(t[1], t[0]), 256 * WordSum(u), WordSum([0] + u));
    }
  }

  lemma SwappedPair(a: bv8, b: bv8)
    ensures Same(256 * HalfWord(a, b), HalfWord(b, a))
  {
    SameBy(256 * HalfWord(a, b), HalfWord(b, a), b as int);
  }

  lemma WordSumFirst(b: bv8, u: seq<bv8>)
    ensures WordSum([b] + u) == (b as int) + WordSum([0] + u)
  {
    if u == [] {
      assert [b] + u == [b] && [0] + u == [0];
    } else {
      assert ([b] + u)[2..] == u[1..] && ([0] + u)[2..] == u[1..];
    }
  }

  // What has been added up after i bytes: the byte at an odd address counts 256-fold.
  function Total(data: seq<bv8>, start: nat, i: nat): (r: nat)
    requires start <= i <= |data| && start <= 1
  {
    (if start == 1 then 256 * (data[0] as int) else 0) + WordSum(data[start..i])
  }

  lemma TotalPair(data: seq<bv8>, start: nat, i: nat)
    requires start <= i && i + 2 <= |data| && start <= 1 && (i - start) % 2 == 0
    ensures Total(data, start, i + 2) == Total(data, start, i) + HalfWord(data[i], data[i + 1])
  {
    assert data[start..i + 2] == data[start..i] + [data[i], data[i + 1]];
    WordSumPair(data[start..i], data[i], data[i + 1]);
  }

  lemma TotalLast(data: seq<bv8>, start: nat, i: nat)
    requires start <= i < |data| && start <= 1 && (i - start) % 2 == 0
    ensures Total(data, start, i + 1) == Total(data, start, i) + (data[i] as int)
  {
    assert data[start..i + 1] == data[start..i] + [data[i]];
    WordSumLast(data[start..i], data[i]);
  }

  lemma TotalAligned(data: seq<bv8>)
    ensures Total(data, 0, |data|) == WordSum(data)
  {
    assert data[0..|data|] == data;
  }

  lemma TotalSwapped(data: seq<bv8>)
    requires data != []
    ensures Same(256 * Total(data, 1, |data|), WordSum(data))
  {
    var t := data[1..];
    var b := data[0] as int;
    assert data[1..|data|] == t && data == [data[0]] + t;
    WordSumFirst(data[0], t);
    WordSumShifted(t);
    SameBy(256 * (256 * b), b, b);
    SameAdd(256 * (256 * b), b, 256 * WordSum(t), WordSum([0] + t));
  }

  // ----- Loads -----

  function LoadHalf(data: seq<bv8>, i: nat): (r: nat)
    requires i + 2 <= |data|
    ensures r <= 0xFFFF
  {
    HalfWord(data[i], data[i + 1])
  }

  function LoadWord(data: seq<bv8>, i: nat): (r: nat)
    requires i + 4 <= |data|
    ensures r < WORD_LIMIT
  {
    HalfWord(data[i], data[i + 1]) + 0x10000 * HalfWord(data[i + 2], data[i + 3])
  }

  // The sum register agrees with the bytes consumed so far.
  ghost predicate Summed(data: seq<bv8>, start: nat, i: nat, r2: nat)
  {
    && start <= i <= |data| && start <= 1 && (i - start) % 2 == 0
    && r2 < WORD_LIMIT
    && Same(r2, Total(data, start, i))
  }

  lemma SummedAdd(data: seq<bv8>, start: nat, i: nat, r2: nat, j: nat, r4: nat, w: nat)
    requires Summed(data, start, i, r2) && i <= j <= |data| && (j - i) % 2 == 0
    requires r4 < WORD_LIMIT && Same(r4, w) && Total(data, start, j) == Total(data, start, i) + w
    ensures Summed(data, start, j, AddCarry(r2, r4))
  {
    AddCarryKeepsSum(r2, r4);
    SameAdd(r2, Total(data, start, i), r4, w);
    SameTrans(AddCarry(r2, r4), r2 + r4, Total(data, start, j));
  }

  lemma WordIsTwoHalves(data: seq<bv8>, start: nat, i: nat)
    requires start <= i && i + 4 <= |data| && start <= 1 && (i - start) % 2 == 0
    ensures Total(data, start, i + 4) == Total(data, start, i) + LoadHalf(data, i) + LoadHalf(data, i + 2)
    ensures Same(LoadWord(data, i), LoadHalf(data, i) + LoadHalf(data, i + 2))
  {
    TotalPair(data, start, i);
    TotalPair(data, start, i + 2);
    SameBy(LoadWord(data, i), LoadHalf(data, i) + LoadHalf(data, i + 2), LoadHalf(data, i + 2));
  }

  lemma SummedWord(data: seq<bv8>, start: nat, i: nat, r2: nat)
    requires Summed(data, start, i, r2) && i + 4 <= |data|
    ensures Summed(data, start, i + 4, AddCarry(r2, LoadWord(data, i)))
  {
    WordIsTwoHalves(data, start, i);
    SummedAdd(data, start, i, r2, i + 4, LoadWord(data, i), LoadHalf(data, i) + LoadHalf(data, i + 2));
  }

  lemma SummedHalf(data: seq<bv8>, start: nat, i: nat, r2: nat)
    requires Summed(data, start, i, r2) && i + 2 <= |data|
    ensures Summed(data, start, i + 2, AddCarry(r2, LoadHalf(data, i)))
  {
    TotalPair(data, start, i);
    SameRefl(LoadHalf(data, i));
    SummedAdd(data, start, i, r2, i + 2, LoadHalf(data, i), LoadHalf(data, i));
  }

  lemma FoldTwice(r2: nat, total: nat)
    requires r2 < WORD_LIMIT && Same(r2, total)
    ensures FoldOnce(FoldOnce(r2)) <= 0xFFFF && Same(FoldOnce(FoldOnce(r2)), total)
  {
    FoldKeepsSum(r2);
    FoldKeepsSum(FoldOnce(r2));
    SameTrans(FoldOnce(FoldOnce(r2)), FoldOnce(r2), r2);
    SameTrans(FoldOnce(FoldOnce(r2)), r2, total);
  }

  // One fold is not enough: two aligned words whose sum folds to 17 bits.
  lemma OneFoldFallsShort()
    ensures var data: seq<bv8> := [1, 0, 0xFF, 0xFF, 0, 0, 0, 0];
            FoldOnce(AddCarry(AddCarry(0, LoadWord(data, 0)), LoadWord(data, 4))) == 0x1_0000
  {
    var data: seq<bv8> := [1, 0, 0xFF, 0xFF, 0, 0, 0, 0];
    assert LoadWord(data, 0) == 0xFFFF_0001;
    assert LoadWord(data, 4) == 0;
  }

  lemma IsOnesSum(data: seq<bv8>, f: nat)
    requires f <= 0xFFFF && Same(f, WordSum(data))
    ensures f == OnesSum(data)
  {
    OnesSumIsWordSum(data);
    SameFlip(OnesSum(data), WordSum(data));
    SameTrans(f, WordSum(data), OnesSum(data));
    Canonical(f, OnesSum(data));
  }

  lemma SwappedIsOnesSum(data: seq<bv8>, f: nat)
    requires data != [] && f <= 0xFFFF && Same(f, Total(data, 1, |data|))
    ensures SwapBytes(f) == OnesSum(data)
  {
    var total := Total(data, 1, |data|);
    TotalSwapped(data);
    SameTimes256(f, total);
    SwapIsTimes256(f);
    SameTrans(SwapBytes(f), 256 * f, 256 * total);
    SameTrans(SwapBytes(f), 256 * total, WordSum(data));
    IsOnesSum(data, SwapBytes(f));
  }

  // The double fold and the swap turn the register into the reference sum.
  lemma Finished(data: seq<bv8>, start: nat, r2: nat)
    requires start <= 1 && start <= |data| && r2 < WORD_LIMIT && Same(r2, Total(data, start, |data|))
    ensures FoldOnce(FoldOnce(r2)) <= 0xFFFF
    ensures OnesSum(data) == if start == 1 then SwapBytes(FoldOnce(FoldOnce(r2))) else FoldOnce(FoldOnce(r2))
  {
    FoldTwice(r2, Total(data, start, |data|));
    if start == 1 {
      SwappedIsOnesSum(data, FoldOnce(FoldOnce(r2)));
    } else {
      TotalAligned(data);
      IsOnesSum(data, FoldOnce(FoldOnce(r2)));
    }
  }

  lemma SameFlip(a: nat, b: nat)
    requires Same(a, b)
    ensures Same(b, a)
  {
    var k :| a == b + Laps(k);
    SameBy(b, a, -k);
  }

  lemma SummedLast(data: seq<bv8>, start: nat, i: nat, r2: nat)
    requires Summed(data, start, i, r2) && i + 1 == |data|
    ensures Same(AddCarry(r2, data[i] as int), Total(data, start, |data|))
  {
    var b := data[i] as int;
    TotalLast(data, start, i);
    SameRefl(b);
    AddCarryKeepsSum(r2, b);
    SameAdd(r2, Total(data, start, i), b, b);
    SameTrans(AddCarry(r2, b), r2 + b, Total(data, start, |data|));
  }

  // Before any carry is possible, plain addition is enough.
  lemma SmallSum(r2: nat, r4: nat)
    requires r2 <= 0xFF00 && r4 <= 0xFFFF
    ensures r2 + r4 == AddCarry(r2, r4)
  {
  }

  lemma SummedStart(data: seq<bv8>, start: nat, r2: nat)
    requires start <= 1 && start <= |data|
    requires r2 == if start == 1 then 256 * (data[0] as int) else 0
    ensures Summed(data, start, start, r2) && r2 <= 0xFF00
  {
    SameRefl(r2);
    assert data[start..start] == [];
  }

  // Labels 2 and 3: two words at a time, then half-words, until at most a byte is left.
  method SumWords(data: seq<bv8>, ghost start: nat, from: nat, sum: nat) returns (r0: nat, r2: nat)
    requires Summed(data, start, from, sum)
    ensures Summed(data, start, r0, r2) && |data| - r0 < 2
  {
    r0, r2 := from, sum;
    while |data| - r0 >= 8
      invariant Summed(data, start, r0, r2)
    {
      SummedWord(data, start, r0, r2);
      r2 := AddCarry(r2, LoadWord(data, r0));
      r0 := r0 + 4;
      SummedWord(data, start, r0, r2);
      r2 := AddCarry(r2, LoadWord(data, r0));
      r0 := r0 + 4;
    }
    while |data| - r0 >= 2
      invariant Summed(data, start, r0, r2)
    {
      SummedHalf(data, start, r0, r2);
      r2 := AddCarry(r2, LoadHalf(data, r0));
      r0 := r0 + 2;
    }
  }

  // The first byte of `data` is at `address`; r0 counts bytes from there, and the length
  // register r1 of the assembly is |data| - r0.
  method Thumb2Checksum(address: nat, data: seq<bv8>) returns (sum: nat)
    ensures sum == OnesSum(data)
  {
    hide AddCarry, FoldOnce, SwapBytes, LoadHalf, Total, Same;
    var r0: nat, r2: nat := 0, 0;
    var odd := address % 2 != 0;
    if odd {
      if |data| == 0 {
        return r2;
      }
      r2 := 256 * (data[r0] as int);
      r0 := r0 + 1;
    }
    ghost var start := r0;
    SummedStart(data, start, r2);
    var aligned := (address + r0) % 4 == 0;
    if !aligned && |data| - r0 >= 2 {
      SummedHalf(data, start, r0, r2);
      SmallSum(r2, LoadHalf(data, r0));
      r2 := r2 + LoadHalf(data, r0);
      r0 := r0 + 2;
      aligned := true;
    }
    if aligned {
      r0, r2 := SumWords(data, start, r0, r2);
    }
    if r0 < |data| {
      SummedLast(data, start, r0, r2);
      r2 := AddCarry(r2, data[r0] as int);
    }
    Finished(data, start, r2);
    r2 := FoldOnce(r2);
    r2 := FoldOnce(r2);
    return if odd then SwapBytes(r2) else r2;
  }
}
