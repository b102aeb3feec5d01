/** The forward copy of Src/arch/memcpy.c, on a memory of bytes. */
module Memcpy {

  // `m` after k bytes have been read at src and then written at dest.
  function Copied(m: seq<bv8>, dest: nat, src: nat, k: nat): (r: seq<bv8>)
    requires dest + k <= |m| && src + k <= |m|
    ensures |r| == |m|
  {
    m[..dest] + m[src..src + k] + m[dest + k..]
  }

  // Regions that do not overlap, or a destination below its source: what lies ahead of the
  // copy has not been overwritten.
  predicate ForwardSafe(dest: nat, src: nat, length: nat) {
    dest <= src || src + length <= dest
  }

  // Copying piece after piece, from memory that the copy has already changed, is copying at once.
  lemma CopiedMore(m: seq<bv8>, dest: nat, src: nat, k: nat, n: nat, length: nat)
    requires k + n <= length && dest + length <= |m| && src + length <= |m| && ForwardSafe(dest, src, length)
    ensures Copied(Copied(m, dest, src, k), dest + k, src + k, n) == Copied(m, dest, src, k + n)
  {
    var c := Copied(m, dest, src, k);
    assert c[src + k..src + k + n] == m[src + k..src + k + n];
    assert m[src..src + k + n] == m[src..src + k] + m[src + k..src + k + n];
  }

  // `ldr r12, [r1], #4` and `str r12, [r0], #4`: the word is read before it is written.
  method CopyWord(mem: array<bv8>, dest: nat, src: nat)
    requires dest + 4 <= mem.Length && src + 4 <= mem.Length
    modifies mem
    ensures mem[..] == Copied(old(mem[..]), dest, src, 4)
  {
    // All four bytes are in the register before the first is stored.
    forall i | 0 <= i < 4 {
      mem[dest + i] := mem[src + i];
    }
  }

  // `ldrb r12, [r1], #1` and `strb r12, [r0], #1`
  method CopyByte(mem: array<bv8>, dest: nat, src: nat)
    requires dest < mem.Length && src < mem.Length
    modifies mem
    ensures mem[..] == Copied(old(mem[..]), dest, src, 1)
  {
    ghost var byte := mem[..][src..src + 1];
    assert byte == [mem[src]];
    mem[dest] := mem[src];
  }

  // One of them, k bytes into a copy of `length`.
  method NextWord(mem: array<bv8>, dest: nat, src: nat, k: nat, length: nat, ghost m: seq<bv8>)
    requires dest + length <= mem.Length == |m| && src + length <= mem.Length && ForwardSafe(dest, src, length)
    requires k + 4 <= length && mem[..] == Copied(m, dest, src, k)
    modifies mem
    ensures mem[..] == Copied(m, dest, src, k + 4)
  {
    hide Copied, ForwardSafe;
    CopiedMore(m, dest, src, k, 4, length);
    CopyWord(mem, dest + k, src + k);
  }

  method NextByte(mem: array<bv8>, dest: nat, src: nat, k: nat, length: nat, ghost m: seq<bv8>)
    requires dest + length <= mem.Length == |m| && src + length <= mem.Length && ForwardSafe(dest, src, length)
    requires k < length && mem[..] == Copied(m, dest, src, k)
    modifies mem
    ensures mem[..] == Copied(m, dest, src, k + 1)
  {
    hide Copied, ForwardSafe;
    CopiedMore(m, dest, src, k, 1, length);
    CopyByte(mem, dest + k, src + k);
  }

  // The second loop, over the bytes that no full turn of the first has copied.
  method CopyBytes(mem: array<bv8>, dest: nat, src: nat, start: nat, length: nat, ghost m: seq<bv8>)
    requires dest + length <= mem.Length == |m| && src + length <= mem.Length && ForwardSafe(dest, src, length)
    requires start <= length < start + 16 && mem[..] == Copied(m, dest, src, start)
    modifies mem
    ensures mem[..] == Copied(m, dest, src, length)
  {
    hide Copied;
    var k := start;
    while k < length
      invariant k <= length && mem[..] == Copied(m, dest, src, k)
    {
      NextByte(mem, dest, src, k, length, m);
      k := k + 1;
    }
  }

  lemma CopiedNone(m: seq<bv8>, dest: nat, src: nat)
    requires dest <= |m| && src <= |m|
    ensures Copied(m, dest, src, 0) == m
  {
  }

  // The first loop, four words a turn.
  method CopyTurns(mem: array<bv8>, dest: nat, src: nat, length: nat, ghost m: seq<bv8>) returns (k: nat)
    requires dest + length <= mem.Length == |m| && src + length <= mem.Length && ForwardSafe(dest, src, length)
    requires mem[..] == m
    modifies mem
    ensures k <= length < k + 16 && mem[..] == Copied(m, dest, src, k)
  {
    var turns: nat := length / 16;
    k := 0;
    CopiedNone(m, dest, src);
    hide Copied;
    while turns > 0
      invariant k + 16 * turns <= length < k + 16 * turns + 16
      invariant mem[..] == Copied(m, dest, src, k)
    {
      NextWord(mem, dest, src, k, length, m);
      NextWord(mem, dest, src, k + 4, length, m);
      NextWord(mem, dest, src, k + 8, length, m);
      NextWord(mem, dest, src, k + 12, length, m);
      k := k + 16;
      turns := turns - 1;
    }
  }

  // Words, then the bytes that are left: the bytes at src end up at dest, and nothing else changes.
  method Thumb2Memcpy(mem: array<bv8>, dest: nat, src: nat, length: nat)
    requires dest + length <= mem.Length && src + length <= mem.Length && ForwardSafe(dest, src, length)
    modifies mem
    ensures mem[..] == Copied(old(mem[..]), dest, src, length)
    ensures forall i | 0 <= i < mem.Length ::
              mem[i] == if dest <= i < dest + length then old(mem[..])[src + (i - dest)] else old(mem[..])[i]
  {
    hide Copied;
    ghost var m := mem[..];
    var k := CopyTurns(mem, dest, src, length, m);
    CopyBytes(mem, dest, src, k, length, m);
    ghost var c := mem[..];
    forall i | 0 <= i < mem.Length
      ensures c[i] == if dest <= i < dest + length then m[src + (i - dest)] else m[i]
    {
      CopiedAt(m, dest, src, length, i);
    }
  }

  lemma CopiedAt(m: seq<bv8>, dest: nat, src: nat, k: nat, i: nat)
    requires dest + k <= |m| && src + k <= |m| && i < |m|
    ensures Copied(m, dest, src, k)[i] == if dest <= i < dest + k then m[src + (i - dest)] else m[i]
  {
  }

  // With the destination inside the source region the copy repeats itself: two bytes moved up
  // by one, byte after byte, arrive as the first of them twice.
  lemma OverlapRepeats(a: bv8, b: bv8)
    requires a != b
    ensures !ForwardSafe(1, 0, 2)
    ensures var m := [a, b, a];
            Copied(Copied(m, 1, 0, 1), 2, 1, 1) != Copied(m, 1, 0, 2)
  {
    var m := [a, b, a];
    assert Copied(m, 1, 0, 1) == [a, a, a];
    assert Copied([a, a, a], 2, 1, 1)[2] == a;
    assert m[0..2] == [a, b];
    assert Copied(m, 1, 0, 2) == [a, a, b];
  }
}
