/** Byte strings: runs of zeros, and 32-bit words, least significant byte first. */
module LittleEndian {
  function ZeroBytes(n: nat): (z: seq<bv8>)
    ensures |z| == n && forall i | 0 <= i < n :: z[i] == 0
  {
    seq(n, _ => 0)
  }

  // A length, as upload_config.py and struct.pack("<I") write it: the low 32 bits.
  function Bytes32(n: nat): (b: seq<bv8>)
    ensures |b| == 4
  {
    [(n % 256) as bv8, (n / 0x100 % 256) as bv8, (n / 0x1_0000 % 256) as bv8, (n / 0x100_0000 % 256) as bv8]
  }

  function Value32(b: seq<bv8>): (n: nat)
    requires |b| == 4
    ensures n < 0x1_0000_0000
  {
    (b[0] as int) + 0x100 * (b[1] as int) + 0x1_0000 * (b[2] as int) + 0x100_0000 * (b[3] as int)
  }

  lemma NextByte(b: bv8)
    requires b != 255
    ensures (b + 1) as int == b as int + 1
  {
  }

  // Every value below 256 is the value of a byte: counting up reaches it.
  lemma {:induction false} ByteWithValue(n: nat) returns (b: bv8)
    requires n < 256
    ensures b as int == n
  {
    if n == 0 {
      b := 0;
    } else {
      b := ByteWithValue(n - 1);
      NextByte(b);
      b := b + 1;
    }
  }

  lemma ByteValue(n: nat)
    requires n < 256
    ensures (n as bv8) as int == n
  {
    var b := ByteWithValue(n);
    assert (b as int) as bv8 == b;
  }

  lemma Digits(n: nat)
    requires n < 0x1_0000_0000
    ensures n == n % 256 + 0x100 * (n / 0x100 % 256)
                 + 0x1_0000 * (n / 0x1_0000 % 256) + 0x100_0000 * (n / 0x100_0000 % 256)
  {
    var a, b, c := n / 0x100, n / 0x1_0000, n / 0x100_0000;
    assert n == n % 256 + 0x100 * a;
    assert a == a % 256 + 0x100 * b;
    assert b == b % 256 + 0x100 * c;
  }

  lemma Value32OfBytes32(n: nat)
    requires n < 0x1_0000_0000
    ensures Value32(Bytes32(n)) == n
  {
    ByteValue(n % 256);
    ByteValue(n / 0x100 % 256);
    ByteValue(n / 0x1_0000 % 256);
    ByteValue(n / 0x100_0000 % 256);
    Digits(n);
  }

  // The least significant byte comes first.
  lemma Bytes32Digits(n: nat)
    requires n < 0x1_0000_0000
    ensures var b := Bytes32(n);
            n == b[0] as int + 0x100 * (b[1] as int) + 0x1_0000 * (b[2] as int) + 0x100_0000 * (b[3] as int)
  {
    ByteValue(n % 256);
    ByteValue(n / 0x100 % 256);
    ByteValue(n / 0x1_0000 % 256);
    ByteValue(n / 0x100_0000 % 256);
    Digits(n);
  }

  // All bits set in every byte is the one value that reads back as 0xFFFFFFFF.
  lemma AllOnesValue(b: seq<bv8>)
    requires |b| == 4
    ensures Value32(b) == 0xFFFF_FFFF <==> b == [0xFF, 0xFF, 0xFF, 0xFF]
  {
    ByteOnes(b[0]);
    ByteOnes(b[1]);
    ByteOnes(b[2]);
    ByteOnes(b[3]);
  }

  lemma ByteOnes(b: bv8)
    ensures b as int == 255 <==> b == 0xFF
    ensures 0 <= b as int <= 255
  {
    assert (b as int) as bv8 == b;
  }

  // A 32-bit register, as the metadata stores it.
  function WordBytes(w: bv32): (b: seq<bv8>)
    ensures |b| == 4
  {
    [(w & 0xFF) as bv8, ((w >> 8) & 0xFF) as bv8, ((w >> 16) & 0xFF) as bv8, ((w >> 24) & 0xFF) as bv8]
  }

  function WordValue(b: seq<bv8>): (r: bv32)
    requires |b| == 4
  {
    (b[0] as bv32) | ((b[1] as bv32) << 8) | ((b[2] as bv32) << 16) | ((b[3] as bv32) << 24)
  }

  lemma WordValueOfBytes(w: bv32)
    ensures WordValue(WordBytes(w)) == w
  {
  }

  lemma DigitsOf(b0: nat, b1: nat, b2: nat, b3: nat)
    requires b0 < 256 && b1 < 256 && b2 < 256 && b3 < 256
    ensures var n := b0 + 0x100 * b1 + 0x1_0000 * b2 + 0x100_0000 * b3;
            n % 256 == b0 && n / 0x100 % 256 == b1 && n / 0x1_0000 % 256 == b2 && n / 0x100_0000 % 256 == b3
  {
    var n := b0 + 0x100 * b1 + 0x1_0000 * b2 + 0x100_0000 * b3;
    assert n / 0x100 == b1 + 0x100 * b2 + 0x1_0000 * b3;
    assert n / 0x1_0000 == b2 + 0x100 * b3;
    assert n / 0x100_0000 == b3;
  }

  // A number given by its four bytes.
  lemma BytesOf(b0: nat, b1: nat, b2: nat, b3: nat)
    requires b0 < 256 && b1 < 256 && b2 < 256 && b3 < 256
    ensures Bytes32(b0 + 0x100 * b1 + 0x1_0000 * b2 + 0x100_0000 * b3)
         == [b0 as bv8, b1 as bv8, b2 as bv8, b3 as bv8]
  {
    DigitsOf(b0, b1, b2, b3);
  }

  // Every four bytes are those of the number they give.
  lemma Bytes32OfValue32(b: seq<bv8>)
    requires |b| == 4
    ensures Bytes32(Value32(b)) == b
  {
    hide Bytes32;
    BytesOf(b[0] as int, b[1] as int, b[2] as int, b[3] as int);
    assert b == [b[0], b[1], b[2], b[3]];
  }
}
