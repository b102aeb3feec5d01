/** What reading a UF2 file gives when it was written by the same script. */
module Uf2RoundTrip {
  import opened LittleEndian
  import opened Uf2
  import opened Wrappers

  // ----- The fields of a written block -----

  lemma {:induction false} BlockAt(pages: seq<Page>, j: nat, k: nat, f: nat)
    requires ArePages(pages) && j <= k < |pages|
    ensures BlocksFrom(pages, j, f)[512 * (k - j)..512 * (k - j) + 512] == BlockBytes(pages[k], k, |pages|, f)
    decreases k - j
  {
    hide BlockBytes;
    var first, rest := BlockBytes(pages[j], j, |pages|, f), BlocksFrom(pages, j + 1, f);
    if j == k {
      assert (first + rest)[0..512] == first;
    } else {
      BlockAt(pages, j + 1, k, f);
      var i := 512 * (k - j);
      assert (first + rest)[i..i + 512] == rest[i - 512..i];
    }
  }

  lemma Slices(h: seq<seq<bv8>>, t: seq<bv8>)
    requires |h| == 8 && forall i | 0 <= i < 8 :: |h[i]| == 4
    ensures var b := h[0] + h[1] + h[2] + h[3] + h[4] + h[5] + h[6] + h[7] + t;
            forall i | 0 <= i < 8 :: b[4 * i..4 * i + 4] == h[i]
  {
    var b := h[0] + h[1] + h[2] + h[3] + h[4] + h[5] + h[6] + h[7] + t;
    assert b[0..4] == h[0];
    assert b[4..8] == h[1];
    assert b[8..12] == h[2];
    assert b[12..16] == h[3];
    assert b[16..20] == h[4];
    assert b[20..24] == h[5];
    assert b[24..28] == h[6];
    assert b[28..32] == h[7];
  }

  lemma WrittenFields(page: Page, k: nat, n: nat, f: nat)
    requires |page.bytes| == 256 && page.addr < WORD && k < WORD && n < WORD && f < WORD
    ensures var b := BlockBytes(page, k, n, f);
            && Field(b, 0) == UF2_MAGIC_START0 && Field(b, 1) == UF2_MAGIC_START1
            && Field(b, 2) == FlagsOf(f) && Field(b, 3) == page.addr && Field(b, 4) == 256
            && Field(b, 5) == k && Field(b, 6) == n && Field(b, 7) == f
            && b[32..32 + 256] == page.bytes
  {
    hide Bytes32, Value32;
    var t := page.bytes + ZeroBytes(220) + Bytes32(UF2_MAGIC_END);
    var h := [Bytes32(UF2_MAGIC_START0), Bytes32(UF2_MAGIC_START1), Bytes32(FlagsOf(f)), Bytes32(page.addr),
              Bytes32(256), Bytes32(k), Bytes32(n), Bytes32(f)];
    var b := BlockBytes(page, k, n, f);
    Slices(h, t);
    assert b == h[0] + h[1] + h[2] + h[3] + h[4] + h[5] + h[6] + h[7] + t;
    Value32OfBytes32(UF2_MAGIC_START0);
    Value32OfBytes32(UF2_MAGIC_START1);
    Value32OfBytes32(FlagsOf(f));
    Value32OfBytes32(page.addr);
    Value32OfBytes32(256);
    Value32OfBytes32(k);
    Value32OfBytes32(n);
    Value32OfBytes32(f);
    assert b[4 * 0..4 * 0 + 4] == h[0] && b[4 * 1..4 * 1 + 4] == h[1] && b[4 * 2..4 * 2 + 4] == h[2];
    assert b[4 * 3..4 * 3 + 4] == h[3] && b[4 * 4..4 * 4 + 4] == h[4] && b[4 * 7..4 * 7 + 4] == h[7];
    assert b[4 * 5..4 * 5 + 4] == h[5] && b[4 * 6..4 * 6 + 4] == h[6];
  }

  lemma MagicBytes()
    ensures Bytes32(UF2_MAGIC_START0) == [0x55, 0x46, 0x32, 0x0A]
    ensures Bytes32(UF2_MAGIC_START1) == [0x57, 0x51, 0x5D, 0x9E]
    ensures Bytes32(UF2_MAGIC_END) == [0x30, 0x6F, 0xB1, 0x0A]
  {
    hide Bytes32;
    FirstMagic();
    SecondMagic();
    FinalMagic();
  }

  lemma FirstMagic()
    ensures Bytes32(UF2_MAGIC_START0) == [0x55, 0x46, 0x32, 0x0A]
  {
    hide Bytes32;
    BytesOf(0x55, 0x46, 0x32, 0x0A);
  }

  lemma SecondMagic()
    ensures Bytes32(UF2_MAGIC_START1) == [0x57, 0x51, 0x5D, 0x9E]
  {
    hide Bytes32;
    BytesOf(0x57, 0x51, 0x5D, 0x9E);
  }

  lemma FinalMagic()
    ensures Bytes32(UF2_MAGIC_END) == [0x30, 0x6F, 0xB1, 0x0A]
  {
    hide Bytes32;
    BytesOf(0x30, 0x6F, 0xB1, 0x0A);
  }

  // A block of the UF2 format: the two magic words, the eight fields with the block's number
  // and the number of blocks, the data, zeros, and the final magic word.
  ghost predicate IsBlock(b: seq<bv8>, page: Page, k: nat, n: nat, f: nat) {
    && Framing(b)
    && Field(b, 2) == (if f == 0 then 0 else 0x2000) && Field(b, 3) == page.addr && Field(b, 4) == 256
    && Field(b, 5) == k && Field(b, 6) == n && Field(b, 7) == f
    && b[32..288] == page.bytes
  }

  // What does not depend on the page.
  ghost predicate Framing(b: seq<bv8>) {
    && |b| == 512
    && b[0..4] == [0x55, 0x46, 0x32, 0x0A] && b[4..8] == [0x57, 0x51, 0x5D, 0x9E]
    && (forall i | 288 <= i < 508 :: b[i] == 0)
    && b[508..512] == [0x30, 0x6F, 0xB1, 0x0A]
  }

  lemma BlockParts(h: seq<bv8>, p: seq<bv8>, z: seq<bv8>, m: seq<bv8>)
    requires |h| == 32 && |p| == 256 && |z| == 220 && |m| == 4
    requires h[0..4] == [0x55, 0x46, 0x32, 0x0A] && h[4..8] == [0x57, 0x51, 0x5D, 0x9E]
    requires (forall i | 0 <= i < 220 :: z[i] == 0) && m == [0x30, 0x6F, 0xB1, 0x0A]
    ensures Framing(h + p + z + m)
  {
    var b := h + p + z + m;
    assert b[0..4] == h[0..4] && b[4..8] == h[4..8];
    assert forall i | 288 <= i < 508 :: b[i] == z[i - 288];
    assert b[508..512] == m;
  }

  lemma HeaderStart(flags: nat, addr: nat, k: nat, n: nat, f: nat)
    ensures HeaderBytes(flags, addr, k, n, f)[0..4] == Bytes32(UF2_MAGIC_START0)
    ensures HeaderBytes(flags, addr, k, n, f)[4..8] == Bytes32(UF2_MAGIC_START1)
  {
    hide Bytes32;
  }

  lemma BlockIsBlock(page: Page, k: nat, n: nat, f: nat)
    requires |page.bytes| == 256 && page.addr < WORD && k < WORD && n < WORD && f < WORD
    ensures IsBlock(BlockBytes(page, k, n, f), page, k, n, f)
  {
    var b, h := BlockBytes(page, k, n, f), HeaderBytes(FlagsOf(f), page.addr, k, n, f);
    var z, m := ZeroBytes(220), Bytes32(UF2_MAGIC_END);
    assert b == h + page.bytes + z + m;
    WrittenFields(page, k, n, f);
    MagicBytes();
    HeaderStart(FlagsOf(f), page.addr, k, n, f);
    hide Bytes32, Value32, Field, HeaderBytes, BlockBytes, ZeroBytes, Framing;
    BlockParts(h, page.bytes, z, m);
  }

  // Every block of a written file is one, with its own number and their common count.
  lemma FileLayout(pages: seq<Page>, k: nat, f: nat)
    requires Writable(pages, f) && k < |pages|
    ensures |BlocksFrom(pages, 0, f)| == 512 * |pages|
    ensures IsBlock(BlocksFrom(pages, 0, f)[512 * k..512 * k + 512], pages[k], k, |pages|, f)
  {
    hide IsBlock, BlocksFrom, BlockBytes;
    BlockAt(pages, 0, k, f);
    BlockIsBlock(pages[k], k, |pages|, f);
  }

  // A block whose no-flash flag is set is passed over, even where its other fields make no sense.
  lemma NoFlashIsSkipped(d: Reader, block: seq<bv8>, g: nat, last: bool)
    requires |block| == 512 && block[0..4] == [0x55, 0x46, 0x32, 0x0A] && block[4..8] == [0x57, 0x51, 0x5D, 0x9E]
    requires block[8] & 1 == 1
    ensures ReadBlock(d, block, g, last) == Ok(d)
  {
    MagicBytes();
    Value32OfBytes32(UF2_MAGIC_START0);
    Value32OfBytes32(UF2_MAGIC_START1);
    OddByte(block[8]);
    LowestByte(block[8..12]);
    hide Bytes32, Value32, Stored, Located;
    assert block[4 * 0..4 * 0 + 4] == block[0..4] && block[4 * 1..4 * 1 + 4] == block[4..8];
    assert block[4 * 2..4 * 2 + 4] == block[8..12];
  }

  lemma LowestByte(b: seq<bv8>)
    requires |b| == 4
    ensures Value32(b) % 2 == (b[0] as int) % 2
  {
  }

  lemma OddByte(b: bv8)
    requires b & 1 == 1
    ensures (b as int) % 2 == 1
  {
    var h := b >> 1;
    assert b == (h << 1) | 1;
    assert h < 128;
    TwiceAndOne(h);
  }

  lemma TwiceAndOne(h: bv8)
    requires h < 128
    ensures (((h << 1) | 1) as int) == 2 * (h as int) + 1
  {
    assert (h << 1) | 1 == h + h + 1;
  }

  // A file with two families: a reader set to one of them gets its pages and address, a
  // reader set to none gets nothing at all, and the address 0.
  lemma TwoFamilies(p: Page, q: Page, f: nat, h: nat, g: nat, start: nat)
    requires |p.bytes| == |q.bytes| == 256 && p.addr < WORD && q.addr < WORD
    requires 0 < f < WORD && 0 < h < WORD && f != h
    ensures Read(BlockBytes(p, 0, 2, f) + BlockBytes(q, 1, 2, h), g, start)
         == Ok(if g == 0 then ([], 0) else if g == f then (p.bytes, p.addr) else if g == h then (q.bytes, q.addr)
               else ([], start))
  {
    var a, b := BlockBytes(p, 0, 2, f), BlockBytes(q, 1, 2, h);
    WrittenDescribes(p, 0, 2, f);
    WrittenDescribes(q, 1, 2, h);
    var d0 := NewReader(start);
    var d1 := Entered(d0, p, f, g);
    var d2 := Entered(d1, q, h, g);
    TwoEntered(p, q, f, h, g, start);
    hide ReadBlock, BlockBytes, ReadFrom, Describes, Read, Join, Entered;
    ReadNewFamily(d0, a, p, f, g, false);
    ReadNewFamily(d1, b, q, h, g, true);
    ReadTwo(d0, a, b, g);
    JoinOne(p.bytes);
    JoinOne(q.bytes);
    JoinNone();
    ReadOf(a + b, g, start, if g == 0 then d2.(outp := [], appstartaddr := 0) else d2);
  }

  lemma TwoEntered(p: Page, q: Page, f: nat, h: nat, g: nat, start: nat)
    requires 0 < f && 0 < h && f != h
    ensures var d1 := Entered(NewReader(start), p, f, g);
            d1.curraddr.Some? && d1.currfamilyid == Some(f)
    ensures var d2 := Entered(Entered(NewReader(start), p, f, g), q, h, g);
            && |d2.families| == 2
            && (g != 0 ==> d2.outp == if g == f then [Bytes(p.bytes)] else if g == h then [Bytes(q.bytes)] else [])
            && (g != 0 ==> d2.appstartaddr == if g == h then q.addr else if g == f then p.addr else start)
  {
    TwoKeys(f, p.addr, h, q.addr);
    assert map[][f := p.addr][h := q.addr] == map[f := p.addr, h := q.addr];
    assert [] + [Bytes(p.bytes)] == [Bytes(p.bytes)] && [] + [Bytes(q.bytes)] == [Bytes(q.bytes)];
  }

  lemma TwoKeys(f: nat, a: nat, h: nat, b: nat)
    requires f != h
    ensures |map[f := a, h := b]| == 2
  {
    var m := map[f := a, h := b];
    assert m.Keys == {f, h};
    assert |m.Keys| == 2;
  }

  lemma JoinNone()
    ensures Join([]) == Ok([])
  {
  }

  lemma ReadOf(buf: seq<bv8>, g: nat, start: nat, d: Reader)
    requires ReadFrom(NewReader(start), buf, 0, g) == Ok(d) && Join(d.outp).Ok?
    ensures Read(buf, g, start) == Ok((Join(d.outp).value, d.appstartaddr))
  {
  }

  // The reader after a block of a family other than the current one, or after the first.
  function Entered(d: Reader, p: Page, f: nat, g: nat): (r: Reader) {
    Reader(if Takes(g, f) then p.addr else d.appstartaddr, Some(p.addr + 256), Some(f),
           NoteFamily(d.families, f, p.addr), if Takes(g, f) then d.outp + [Bytes(p.bytes)] else d.outp)
  }

  lemma ReadNewFamily(d: Reader, block: seq<bv8>, p: Page, f: nat, g: nat, last: bool)
    requires Describes(block, p, f) && f != 0
    requires || (d.curraddr == None && d.currfamilyid == None)
             || (d.curraddr.Some? && d.currfamilyid.Some? && d.currfamilyid != Some(f))
    ensures var e := Entered(d, p, f, g);
            ReadBlock(d, block, g, last)
            == Ok(if last && |e.families| > 1 && g == 0 then e.(outp := [], appstartaddr := 0) else e)
  {
    hide Field, HasFamily, NoteFamily;
    assert d.outp + Integers(0) == d.outp;
  }

  lemma ReadTwo(d: Reader, a: seq<bv8>, b: seq<bv8>, g: nat)
    requires |a| == |b| == 512 && ReadBlock(d, a, g, false).Ok?
    ensures ReadFrom(d, a + b, 0, g) == ReadBlock(ReadBlock(d, a, g, false).value, b, g, true)
  {
    hide ReadBlock;
    var buf, e := a + b, ReadBlock(d, a, g, false).value;
    assert buf[512 * 0..512 * 0 + 512] == a && buf[512 * 1..512 * 1 + 512] == b;
    var r := ReadBlock(e, b, g, true);
    if r.Ok? {
      assert ReadFrom(r.value, buf, 2, g) == Ok(r.value);
    }
    assert ReadFrom(e, buf, 1, g) == r;
  }

  lemma JoinOne(s: seq<bv8>)
    ensures Join([Bytes(s)]) == Ok(s)
  {
    assert [Bytes(s)][1..] == [];
    assert s + [] == s;
  }

  // ----- One block -----

  // The file's header fields all fit in 32 bits.
  ghost predicate Writable(pages: seq<Page>, f: nat) {
    && ArePages(pages) && |pages| < WORD && f < WORD
    && forall i | 0 <= i < |pages| :: pages[i].addr < WORD
  }

  // A reader set to family g takes the blocks of family f.
  predicate Takes(g: nat, f: nat) {
    g == 0 || g == f
  }

  // The reader before page k, apart from its output.
  ghost predicate AtPage(d: Reader, pages: seq<Page>, k: nat, f: nat, g: nat, start: nat)
    requires k <= |pages|
  {
    && d.families.Keys <= {f}
    && if k == 0 then d.appstartaddr == start && d.curraddr == None && d.currfamilyid == None
       else
         && d.appstartaddr == (if Takes(g, f) then pages[0].addr else start)
         && d.curraddr == Some(pages[k - 1].addr + 256)
         && d.currfamilyid == Some(f)
  }

  // The distance from the end of page k - 1 to page k.
  function Gap(pages: seq<Page>, k: nat): (r: int)
    requires k < |pages|
  {
    if k == 0 then 0 else pages[k].addr - (pages[k - 1].addr + 256)
  }

  predicate GapOk(gap: int) {
    0 <= gap <= 10 * 1024 * 1024 && gap % 4 == 0
  }

  function Payload(page: Page, f: nat, g: nat): (r: seq<Item>) {
    if Takes(g, f) then [Bytes(page.bytes)] else []
  }

  lemma OneFamily(families: map<nat, nat>, f: nat, addr: nat)
    requires families.Keys <= {f}
    ensures NoteFamily(families, f, addr).Keys <= {f} && |NoteFamily(families, f, addr)| <= 1 && |families| <= 1
  {
    SmallMap(families, f);
    SmallMap(NoteFamily(families, f, addr), f);
  }

  lemma SmallMap(m: map<nat, nat>, f: nat)
    requires m.Keys <= {f}
    ensures |m| <= 1
  {
    if f in m {
      assert m.Keys == {f};
    } else {
      assert m.Keys == {};
    }
    assert |m| == |m.Keys|;
  }

  lemma FlagFields(f: nat)
    ensures FlagsOf(f) % 2 == 0
    ensures FlagsOf(f) / FAMILY_FLAG % 2 == 1 <==> f != 0
  {
  }

  // What matters of a written block.
  ghost predicate Describes(block: seq<bv8>, page: Page, f: nat) {
    && |block| == 512 && |page.bytes| == 256
    && Field(block, 0) == UF2_MAGIC_START0 && Field(block, 1) == UF2_MAGIC_START1
    && Field(block, 2) % 2 == 0 && (HasFamily(block) <==> f != 0)
    && Field(block, 3) == page.addr && Field(block, 4) == 256 && Field(block, 7) == f
    && block[32..32 + 256] == page.bytes
  }

  lemma WrittenDescribes(page: Page, k: nat, n: nat, f: nat)
    requires |page.bytes| == 256 && page.addr < WORD && k < WORD && n < WORD && f < WORD
    ensures Describes(BlockBytes(page, k, n, f), page, f)
  {
    WrittenFields(page, k, n, f);
    FlagFields(f);
    hide Field, BlockBytes;
  }

  // Where the reader stands once it has looked at the header of page k.
  ghost predicate LocatedAt(d: Reader, e: Reader, pages: seq<Page>, k: nat, f: nat, g: nat, start: nat)
    requires k < |pages|
  {
    && e.outp == d.outp && e.families == d.families && e.currfamilyid == Some(f)
    && e.curraddr == Some(if k == 0 then pages[0].addr else pages[k - 1].addr + 256)
    && e.appstartaddr == (if Takes(g, f) then pages[0].addr else start)
  }

  lemma LocatedWritten(d: Reader, block: seq<bv8>, pages: seq<Page>, k: nat, f: nat, g: nat, start: nat)
    requires k < |pages| && AtPage(d, pages, k, f, g, start) && Describes(block, pages[k], f)
    ensures LocatedAt(d, Located(d, block, g), pages, k, f, g, start)
  {
    hide Field, HasFamily;
  }

  lemma StoredIs(e: Reader, block: seq<bv8>, f: nat, g: nat, last: bool, gap: int)
    requires |block| == 512 && Field(block, 4) == 256 && Field(block, 7) == f && (HasFamily(block) <==> f != 0)
    requires e.curraddr.Some? && Field(block, 3) - e.curraddr.value == gap && e.families.Keys <= {f}
    ensures var r := Stored(e, block, g, last);
            && (r.Ok? <==> GapOk(gap))
            && (r.Ok? ==>
                  r.value.outp == e.outp + Integers(gap) + (if Takes(g, f) then [Bytes(block[32..288])] else []))
            && (r.Ok? ==> r.value.appstartaddr == e.appstartaddr && r.value.currfamilyid == e.currfamilyid)
            && (r.Ok? ==> r.value.curraddr == Some(Field(block, 3) + 256) && r.value.families.Keys <= {f})
  {
    hide Field, HasFamily, NoteFamily, Integers;
    OneFamily(e.families, f, Field(block, 3));
    if GapOk(gap) {
      assert (e.outp + Integers(gap)) + [] == e.outp + Integers(gap);
    }
  }

  lemma StoredWritten(d: Reader, e: Reader, block: seq<bv8>, pages: seq<Page>, k: nat, f: nat, g: nat, start: nat,
                      last: bool)
    requires k < |pages| && d.families.Keys <= {f} && Describes(block, pages[k], f)
    requires LocatedAt(d, e, pages, k, f, g, start)
    ensures var r := Stored(e, block, g, last);
            && (r.Ok? <==> GapOk(Gap(pages, k)))
            && (r.Ok? ==> AtPage(r.value, pages, k + 1, f, g, start))
            && (r.Ok? ==> r.value.outp == d.outp + Integers(Gap(pages, k)) + Payload(pages[k], f, g))
  {
    hide Field, HasFamily, Integers, Stored;
    StoredIs(e, block, f, g, last, Gap(pages, k));
  }

  lemma ReadWritten(d: Reader, pages: seq<Page>, k: nat, f: nat, g: nat, start: nat, last: bool)
    requires Writable(pages, f) && k < |pages| && AtPage(d, pages, k, f, g, start)
    ensures var r := ReadBlock(d, BlockBytes(pages[k], k, |pages|, f), g, last);
            && (r.Ok? <==> GapOk(Gap(pages, k)))
            && (r.Ok? ==> AtPage(r.value, pages, k + 1, f, g, start))
            && (r.Ok? ==> r.value.outp == d.outp + Integers(Gap(pages, k)) + Payload(pages[k], f, g))
  {
    var block := BlockBytes(pages[k], k, |pages|, f);
    WrittenDescribes(pages[k], k, |pages|, f);
    hide BlockBytes;
    LocatedWritten(d, block, pages, k, f, g, start);
    hide Field, HasFamily, Stored, Located;
    StoredWritten(d, Located(d, block, g), block, pages, k, f, g, start, last);
  }

  // ----- Whole files -----

  // Page after page without a hole.
  ghost predicate Contiguous(pages: seq<Page>) {
    forall k | 0 < k < |pages| :: pages[k].addr == pages[k - 1].addr + 256
  }

  function Data(pages: seq<Page>): (r: seq<bv8>) {
    if pages == [] then [] else pages[0].bytes + Data(pages[1..])
  }

  function Items(pages: seq<Page>): (r: seq<Item>) {
    seq(|pages|, k requires 0 <= k < |pages| => Bytes(pages[k].bytes))
  }

  function Taken(pages: seq<Page>, k: nat, f: nat, g: nat): (r: seq<Item>)
    requires k <= |pages|
  {
    if Takes(g, f) then Items(pages[..k]) else []
  }

  lemma {:induction false} JoinOfItems(pages: seq<Page>)
    ensures Join(Items(pages)) == Ok(Data(pages))
  {
    if pages != [] {
      JoinOfItems(pages[1..]);
      assert Items(pages)[1..] == Items(pages[1..]);
    }
  }

  lemma {:induction false} IntegerSpoilsJoin(items: seq<Item>)
    requires Integer in items
    ensures Join(items) == Err(JoinError)
  {
    if !items[0].Integer? {
      IntegerSpoilsJoin(items[1..]);
    }
  }

  lemma FileBlock(pages: seq<Page>, k: nat, f: nat)
    requires ArePages(pages) && k < |pages|
    ensures var buf := BlocksFrom(pages, 0, f);
            |buf| / 512 == |pages| && buf[512 * k..512 * k + 512] == BlockBytes(pages[k], k, |pages|, f)
  {
    BlockAt(pages, 0, k, f);
  }

  function ReadPage(d: Reader, pages: seq<Page>, k: nat, f: nat, g: nat): (r: Result<Reader, Error>)
    requires ArePages(pages) && k < |pages|
  {
    ReadBlock(d, BlockBytes(pages[k], k, |pages|, f), g, k + 1 == |pages|)
  }

  // ReadFrom on a written file.
  function ReadRest(d: Reader, pages: seq<Page>, k: nat, f: nat, g: nat): (r: Result<Reader, Error>)
    requires ArePages(pages) && k <= |pages|
  {
    ReadFrom(d, BlocksFrom(pages, 0, f), k, g)
  }

  lemma ReadRestStep(d: Reader, pages: seq<Page>, k: nat, f: nat, g: nat)
    requires ArePages(pages) && k < |pages|
    ensures ReadRest(d, pages, k, f, g)
         == var r := ReadPage(d, pages, k, f, g); if r.Ok? then ReadRest(r.value, pages, k + 1, f, g) else r
  {
    FileBlock(pages, k, f);
    hide BlocksFrom, BlockBytes, ReadBlock;
  }

  lemma ReadRestEnd(d: Reader, pages: seq<Page>, f: nat, g: nat)
    requires ArePages(pages)
    ensures ReadRest(d, pages, |pages|, f, g) == Ok(d)
  {
    hide BlocksFrom;
  }

  // Reading on from page k when no hole has been met so far.
  lemma {:induction false} ReadOn(d: Reader, pages: seq<Page>, k: nat, f: nat, g: nat, start: nat)
    requires Writable(pages, f) && k <= |pages| && AtPage(d, pages, k, f, g, start)
    requires d.outp == Taken(pages, k, f, g)
    requires forall i | k <= i < |pages| :: Gap(pages, i) == 0
    ensures var r := ReadRest(d, pages, k, f, g);
            r.Ok? && r.value.outp == Taken(pages, |pages|, f, g) && AtPage(r.value, pages, |pages|, f, g, start)
    decreases |pages| - k
  {
    hide ReadRest, AtPage, BlockBytes, ReadBlock, Taken, Payload, Integers;
    if k == |pages| {
      ReadRestEnd(d, pages, f, g);
    } else {
      ReadRestStep(d, pages, k, f, g);
      ReadWritten(d, pages, k, f, g, start, k + 1 == |pages|);
      TakenNext(pages, k, f, g);
      ReadOn(ReadPage(d, pages, k, f, g).value, pages, k + 1, f, g, start);
    }
  }

  lemma TakenNext(pages: seq<Page>, k: nat, f: nat, g: nat)
    requires k < |pages|
    ensures Taken(pages, k, f, g) + Integers(0) + Payload(pages[k], f, g) == Taken(pages, k + 1, f, g)
  {
    assert pages[..k + 1] == pages[..k] + [pages[k]];
    assert Items(pages[..k + 1]) == Items(pages[..k]) + [Bytes(pages[k].bytes)];
  }

  // Once an integer is in the output list, or a hole lies ahead, no result is possible.
  lemma {:induction false} ReadFails(d: Reader, pages: seq<Page>, k: nat, f: nat, g: nat, start: nat)
    requires Writable(pages, f) && k <= |pages| && AtPage(d, pages, k, f, g, start)
    requires Integer in d.outp || exists i | k <= i < |pages| :: Gap(pages, i) != 0
    ensures var r := ReadRest(d, pages, k, f, g);
            r.Ok? ==> Integer in r.value.outp
    decreases |pages| - k
  {
    hide ReadRest, AtPage, BlockBytes, ReadBlock, Payload, Integers;
    if k == |pages| {
      ReadRestEnd(d, pages, f, g);
    } else {
      ReadRestStep(d, pages, k, f, g);
      ReadWritten(d, pages, k, f, g, start, k + 1 == |pages|);
      var r := ReadPage(d, pages, k, f, g);
      if r.Ok? {
        StaysSpoiled(d.outp, Gap(pages, k), Payload(pages[k], f, g));
        ReadFails(r.value, pages, k + 1, f, g, start);
      }
    }
  }

  lemma StaysSpoiled(outp: seq<Item>, gap: nat, more: seq<Item>)
    ensures Integer in outp || gap > 0 ==> Integer in outp + Integers(gap) + more
  {
    var all := outp + Integers(gap) + more;
    if Integer in outp {
      var i :| 0 <= i < |outp| && outp[i] == Integer;
      assert all[i] == Integer;
    } else if gap > 0 {
      assert all[|outp|] == Integer;
    }
  }

  lemma TakenAll(pages: seq<Page>, f: nat, g: nat)
    ensures Taken(pages, 0, f, g) == []
    ensures Join(Taken(pages, |pages|, f, g)) == Ok(if Takes(g, f) then Data(pages) else [])
  {
    assert pages[..|pages|] == pages;
    JoinOfItems(pages);
  }

  lemma ReadIsReadRest(pages: seq<Page>, f: nat, g: nat, start: nat)
    requires ArePages(pages)
    ensures var r := ReadRest(NewReader(start), pages, 0, f, g);
            Read(BlocksFrom(pages, 0, f), g, start)
              == if r.Err? then Err(r.error)
                 else if Join(r.value.outp).Err? then Err(Join(r.value.outp).error)
                 else Ok((Join(r.value.outp).value, r.value.appstartaddr))
  {
    hide ReadFrom, Join;
  }

  // Reading back what was written succeeds exactly when the pages have no hole, and then it
  // gives their bytes and the first address, or nothing to a reader set to another family.
  lemma ReadBack(pages: seq<Page>, f: nat, g: nat, start: nat)
    requires Writable(pages, f) && pages != []
    ensures var r := Read(BlocksFrom(pages, 0, f), g, start);
            && (r.Ok? <==> Contiguous(pages))
            && (r.Ok? ==> r.value == if Takes(g, f) then (Data(pages), pages[0].addr) else ([], start))
  {
    hide ReadRest, Read, Taken, Join, Data, BlocksFrom;
    var d := NewReader(start);
    ReadIsReadRest(pages, f, g, start);
    if Contiguous(pages) {
      assert forall i | 0 <= i < |pages| :: Gap(pages, i) == 0;
      TakenAll(pages, f, g);
      ReadOn(d, pages, 0, f, g, start);
    } else {
      var k :| 0 < k < |pages| && pages[k].addr != pages[k - 1].addr + 256;
      assert Gap(pages, k) != 0;
      ReadFails(d, pages, 0, f, g, start);
      var r := ReadRest(d, pages, 0, f, g);
      if r.Ok? {
        IntegerSpoilsJoin(r.value.outp);
      }
    }
  }

  // ----- Flat files -----

  // It does happen: two pages with an empty one between them are written but not read back.
  lemma HoleIsNotRead(start: nat)
    ensures var pages := [Page(0, ZeroBytes(256)), Page(512, ZeroBytes(256))];
            ArePages(pages) && Read(BlocksFrom(pages, 0, 0), 0, start).Err?
  {
    var pages := [Page(0, ZeroBytes(256)), Page(512, ZeroBytes(256))];
    assert pages[1].addr != pages[0].addr + 256;
    assert Writable(pages, 0) && !Contiguous(pages);
    hide Read, BlocksFrom;
    ReadBack(pages, 0, 0, start);
  }

  lemma {:induction false} DataAt(pages: seq<Page>, i: nat)
    requires ArePages(pages) && i < 256 * |pages|
    ensures |Data(pages)| == 256 * |pages|
    ensures Data(pages)[i] == pages[i / 256].bytes[i % 256]
  {
    DataLength(pages);
    if i >= 256 {
      DataAt(pages[1..], i - 256);
      assert i / 256 == (i - 256) / 256 + 1 && i % 256 == (i - 256) % 256;
    }
  }

  lemma {:induction false} DataLength(pages: seq<Page>)
    requires ArePages(pages)
    ensures |Data(pages)| == 256 * |pages|
  {
    if pages != [] {
      DataLength(pages[1..]);
    }
  }

  // A file filled with zeros up to whole pages.
  function Filled(content: seq<bv8>): (r: seq<bv8>)
    ensures |r| == 256 * PageCount(content) && r[..|content|] == content
    ensures forall i | |content| <= i < |r| :: r[i] == 0
  {
    content + ZeroBytes(256 * PageCount(content) - |content|)
  }

  lemma FilledAt(content: seq<bv8>, start: nat, i: nat)
    requires i < 256 * PageCount(content)
    ensures PagesOf(content, start)[i / 256].bytes[i % 256] == Filled(content)[i]
  {
    var k := i / 256;
    PageAt(content, start, k);
    assert i == 256 * k + i % 256;
  }

  lemma DataOfPages(content: seq<bv8>, start: nat)
    ensures Data(PagesOf(content, start)) == Filled(content)
  {
    var pages := PagesOf(content, start);
    DataLength(pages);
    forall i | 0 <= i < 256 * |pages| ensures Data(pages)[i] == Filled(content)[i] {
      hide Data, Filled, PagesOf;
      DataAt(pages, i);
      FilledAt(content, start, i);
    }
  }

  lemma PagesOfContiguous(content: seq<bv8>, start: nat, f: nat)
    requires content != [] && Encodable(content, start, f)
    ensures var pages := PagesOf(content, start);
            pages != [] && Writable(pages, f) && Contiguous(pages) && pages[0].addr == start
  {
  }

  // The conversion fails on a file exactly when some field of some block's header does not fit.
  lemma EncodableExact(content: seq<bv8>, start: nat, f: nat)
    requires content != []
    ensures Encodable(content, start, f) <==> Writable(PagesOf(content, start), f)
  {
    var pages, n := PagesOf(content, start), PageCount(content);
    if Writable(pages, f) {
      assert pages[n - 1].addr == start + 256 * (n - 1);
    }
    if Encodable(content, start, f) {
      PagesOfContiguous(content, start, f);
    }
  }

  // A block without the two magic words, and one with too much data, end the reading.
  lemma BadBlocksFail(d: Reader, block: seq<bv8>, g: nat, last: bool)
    requires |block| == 512
    ensures block[0..4] != [0x55, 0x46, 0x32, 0x0A] || block[4..8] != [0x57, 0x51, 0x5D, 0x9E] ==>
              ReadBlock(d, block, g, last) == Err(BadMagic)
    ensures block[0..4] == [0x55, 0x46, 0x32, 0x0A] && block[4..8] == [0x57, 0x51, 0x5D, 0x9E]
            && Field(block, 2) % 2 == 0 && Field(block, 4) > 476 ==>
              ReadBlock(d, block, g, last) == Err(BadSize)
  {
    MagicBytes();
    hide Bytes32, Value32, Stored, Located;
    Value32OfBytes32(UF2_MAGIC_START0);
    Value32OfBytes32(UF2_MAGIC_START1);
    Bytes32OfValue32(block[0..4]);
    Bytes32OfValue32(block[4..8]);
    assert block[4 * 0..4 * 0 + 4] == block[0..4] && block[4 * 1..4 * 1 + 4] == block[4..8];
  }

  // Converting a file and converting it back gives the file, zero-filled to whole pages, and
  // the address it was placed at; a reader set to another family gets nothing.
  lemma RoundTrip(content: seq<bv8>, start: nat, f: nat, g: nat, otherStart: nat)
    requires content != [] && Encodable(content, start, f)
    ensures Read(BlocksFrom(PagesOf(content, start), 0, f), g, otherStart)
         == Ok(if Takes(g, f) then (Filled(content), start) else ([], otherStart))
  {
    var pages := PagesOf(content, start);
    PagesOfContiguous(content, start, f);
    hide Read, Data, Filled, PagesOf, Writable, BlocksFrom;
    ReadBack(pages, f, g, otherStart);
    DataOfPages(content, start);
  }

  // What the script writes, it recognizes as UF2, in blocks of 512 bytes.
  lemma WrittenIsUf2(pages: seq<Page>, f: nat)
    requires Writable(pages, f) && pages != []
    ensures |BlocksFrom(pages, 0, f)| == 512 * |pages| && IsUf2(BlocksFrom(pages, 0, f))
  {
    FileBlock(pages, 0, f);
    WrittenFields(pages[0], 0, |pages|, f);
    hide BlocksFrom, BlockBytes, Value32, Writable;
    HeadOfFile(BlocksFrom(pages, 0, f), BlockBytes(pages[0], 0, |pages|, f));
  }

  lemma HeadOfFile(buf: seq<bv8>, block: seq<bv8>)
    requires |buf| >= 512 && block == buf[0..512]
    ensures Value32(buf[0..4]) == Field(block, 0) && Value32(buf[4..8]) == Field(block, 1)
  {
    hide Value32;
    assert block[4 * 0..4 * 0 + 4] == buf[0..4];
    assert block[4 * 1..4 * 1 + 4] == buf[4..8];
  }
}
