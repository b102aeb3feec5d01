/** The UF2 container of uf2conv.py: writing it and reading it back. */
module Uf2 {
  import opened LittleEndian
  import opened Wrappers

  const UF2_MAGIC_START0: nat := 0x0A324655
  const UF2_MAGIC_START1: nat := 0x9E5D5157
  const UF2_MAGIC_END: nat := 0x0AB16F30
  const FAMILY_FLAG: nat := 0x2000
  const WORD: nat := 0x1_0000_0000

  // The exceptions the script can end with.
  datatype Error =
    | StructError      // a header field does not fit in 32 bits
    | BadMagic         // the message for a skipped block adds a number to a string
    | BadSize
    | OutOfOrder
    | TooMuchPadding
    | OddPadding
    | JoinError        // the padding loop extends the output list with integers

  // ----- Writing -----

  // A page is what one block carries: 256 bytes and the address they belong at.
  datatype Page = Page(addr: nat, bytes: seq<bv8>)

  function HeaderBytes(flags: nat, addr: nat, blockno: nat, numblocks: nat, family: nat): (h: seq<bv8>)
    ensures |h| == 32
  {
    Bytes32(UF2_MAGIC_START0) + Bytes32(UF2_MAGIC_START1) + Bytes32(flags) + Bytes32(addr)
    + Bytes32(256) + Bytes32(blockno) + Bytes32(numblocks) + Bytes32(family)
  }

  function FlagsOf(familyid: nat): (r: nat) {
    if familyid != 0 then FAMILY_FLAG else 0
  }

  function BlockBytes(page: Page, blockno: nat, numblocks: nat, familyid: nat): (b: seq<bv8>)
    requires |page.bytes| == 256
    ensures |b| == 512
  {
    HeaderBytes(FlagsOf(familyid), page.addr, blockno, numblocks, familyid)
    + page.bytes + ZeroBytes(220) + Bytes32(UF2_MAGIC_END)
  }

  ghost predicate ArePages(pages: seq<Page>) {
    forall i | 0 <= i < |pages| :: |pages[i].bytes| == 256
  }

  // The blocks from number k on.
  function BlocksFrom(pages: seq<Page>, k: nat, familyid: nat): (b: seq<bv8>)
    requires ArePages(pages) && k <= |pages|
    ensures |b| == 512 * (|pages| - k)
    decreases |pages| - k
  {
    if k == |pages| then [] else BlockBytes(pages[k], k, |pages|, familyid) + BlocksFrom(pages, k + 1, familyid)
  }

  function ChunkOf(content: seq<bv8>, k: nat): (chunk: seq<bv8>)
    requires 256 * k < |content|
    ensures |chunk| <= 256
  {
    if 256 * k + 256 <= |content| then content[256 * k..256 * k + 256] else content[256 * k..]
  }

  // The 256-byte pages of a flat file placed at `start`; the last one is filled with zeros.
  function PageOf(content: seq<bv8>, start: nat, k: nat): (p: Page)
    requires 256 * k < |content|
    ensures |p.bytes| == 256 && p.addr == start + 256 * k
  {
    var chunk := ChunkOf(content, k);
    Page(start + 256 * k, chunk + ZeroBytes(256 - |chunk|))
  }

  function PageCount(content: seq<bv8>): (r: nat) {
    (|content| + 255) / 256
  }

  function PagesOf(content: seq<bv8>, start: nat): (pages: seq<Page>)
    ensures |pages| == PageCount(content) && ArePages(pages)
  {
    seq(PageCount(content), k requires 0 <= k < PageCount(content) => PageOf(content, start, k))
  }

  // Every header field fits in 32 bits.
  ghost predicate Encodable(content: seq<bv8>, start: nat, familyid: nat) {
    var n := PageCount(content);
    n == 0 || (n < WORD && familyid < WORD && start + 256 * (n - 1) < WORD)
  }

  method DataPadding() returns (r: seq<bv8>)
    ensures r == ZeroBytes(220)
  {
    r := [];
    while |r| < 512 - 256 - 32 - 4
      invariant |r| <= 220 && |r| % 4 == 0 && r == ZeroBytes(|r|)
    {
      r := r + [0, 0, 0, 0];
    }
  }

  method FillChunk(chunk: seq<bv8>) returns (r: seq<bv8>)
    requires |chunk| <= 256
    ensures r == chunk + ZeroBytes(256 - |chunk|)
  {
    r := chunk;
    while |r| < 256
      invariant |chunk| <= |r| <= 256 && r == chunk + ZeroBytes(|r| - |chunk|)
    {
      r := r + [0];
    }
  }

  method ConvertToUf2(content: seq<bv8>, appstartaddr: nat, familyid: nat) returns (r: Result<seq<bv8>, Error>)
    ensures r == if Encodable(content, appstartaddr, familyid)
                 then Ok(BlocksFrom(PagesOf(content, appstartaddr), 0, familyid)) else Err(StructError)
  {
    hide HeaderBytes, BlockBytes, BlocksFrom, PagesOf, ChunkOf, ZeroBytes;
    ghost var pages := PagesOf(content, appstartaddr);
    BlocksFromEnd(pages, familyid);
    var datapadding := DataPadding();
    var numblocks := (|content| + 255) / 256;
    var outp: seq<bv8> := [];
    for blockno := 0 to numblocks
      invariant outp + BlocksFrom(pages, blockno, familyid) == BlocksFrom(pages, 0, familyid)
      invariant blockno > 0 ==> numblocks < WORD && familyid < WORD && appstartaddr + 256 * (blockno - 1) < WORD
    {
      var ptr := 256 * blockno;
      var chunk := ChunkOf(content, blockno);
      var flags := 0;
      if familyid != 0 {
        flags := FAMILY_FLAG;
      }
      if ptr + appstartaddr >= WORD || numblocks >= WORD || familyid >= WORD {
        return Err(StructError);
      }
      var hd := HeaderBytes(flags, ptr + appstartaddr, blockno, numblocks, familyid);
      PageAt(content, appstartaddr, blockno);
      chunk := FillChunk(chunk);
      var block := hd + chunk + datapadding + Bytes32(UF2_MAGIC_END);
      OneBlock(pages, blockno, familyid, hd, chunk, datapadding);
      Regroup(outp, block, BlocksFrom(pages, blockno + 1, familyid));
      outp := outp + block;
    }
    assert outp + [] == outp;
    return Ok(outp);
  }

  lemma Regroup(a: seq<bv8>, b: seq<bv8>, c: seq<bv8>)
    ensures a + (b + c) == (a + b) + c
  {
  }

  lemma BlocksFromEnd(pages: seq<Page>, familyid: nat)
    requires ArePages(pages)
    ensures BlocksFrom(pages, |pages|, familyid) == []
    ensures [] + BlocksFrom(pages, 0, familyid) == BlocksFrom(pages, 0, familyid)
  {
  }

  lemma PageAt(content: seq<bv8>, start: nat, k: nat)
    requires 256 * k < |content|
    ensures k < PageCount(content)
    ensures PagesOf(content, start)[k]
         == Page(start + 256 * k, ChunkOf(content, k) + ZeroBytes(256 - |ChunkOf(content, k)|))
  {
  }

  lemma OneBlock(pages: seq<Page>, k: nat, familyid: nat, hd: seq<bv8>, chunk: seq<bv8>, datapadding: seq<bv8>)
    requires ArePages(pages) && k < |pages| && datapadding == ZeroBytes(220) && chunk == pages[k].bytes
    requires hd == HeaderBytes(FlagsOf(familyid), pages[k].addr, k, |pages|, familyid)
    ensures var block := hd + chunk + datapadding + Bytes32(UF2_MAGIC_END);
            BlocksFrom(pages, k, familyid) == block + BlocksFrom(pages, k + 1, familyid)
  {
    hide Bytes32, HeaderBytes;
  }

  // ----- Reading -----

  function Field(block: seq<bv8>, i: nat): (n: nat)
    requires |block| == 512 && i < 8
    ensures n < WORD
  {
    Value32(block[4 * i..4 * i + 4])
  }

  // `w[0] == UF2_MAGIC_START0 and w[1] == UF2_MAGIC_START1` on the first eight bytes
  predicate IsUf2(buf: seq<bv8>)
    requires |buf| >= 8
  {
    Value32(buf[0..4]) == UF2_MAGIC_START0 && Value32(buf[4..8]) == UF2_MAGIC_START1
  }

  // An element of the output list: a bytes object or, from the padding loop, an integer.
  datatype Item = Bytes(data: seq<bv8>) | Integer

  // The variables that live across blocks.
  datatype Reader = Reader(
    appstartaddr: nat,
    curraddr: Option<nat>,
    currfamilyid: Option<nat>,
    families: map<nat, nat>,
    outp: seq<Item>)

  function Integers(n: nat): (items: seq<Item>)
    ensures |items| == n
  {
    seq(n, _ => Integer)
  }

  predicate HasFamily(block: seq<bv8>)
    requires |block| == 512
  {
    Field(block, 2) / FAMILY_FLAG % 2 == 1
  }

  // The reader after the address and family bookkeeping at the head of a block.
  function Located(d: Reader, block: seq<bv8>, familyid: nat): (r: Reader)
    requires |block| == 512
  {
    var newaddr, fam := Field(block, 3), Field(block, 7);
    var d1 := if HasFamily(block) && d.currfamilyid == None then d.(currfamilyid := Some(fam)) else d;
    if d1.curraddr == None || (HasFamily(block) && Some(fam) != d1.currfamilyid) then
      d1.(currfamilyid := Some(fam), curraddr := Some(newaddr),
          appstartaddr := if familyid == 0 || familyid == fam then newaddr else d1.appstartaddr)
    else d1
  }

  function NoteFamily(families: map<nat, nat>, fam: nat, addr: nat): (r: map<nat, nat>) {
    if fam in families && families[fam] <= addr then families else families[fam := addr]
  }

  // The rest of a block: padding, data and, at the last block, the check for several families.
  function Stored(d: Reader, block: seq<bv8>, familyid: nat, last: bool): (r: Result<Reader, Error>)
    requires |block| == 512 && d.curraddr.Some? && Field(block, 4) <= 476
  {
    var newaddr, fam, datalen := Field(block, 3), Field(block, 7), Field(block, 4);
    var padding := newaddr - d.curraddr.value;
    if padding < 0 then Err(OutOfOrder)
    else if padding > 10 * 1024 * 1024 then Err(TooMuchPadding)
    else if padding % 4 != 0 then Err(OddPadding)
    else
      var padded := d.outp + Integers(padding);
      var mine := familyid == 0 || (HasFamily(block) && familyid == fam);
      var families := if HasFamily(block) then NoteFamily(d.families, fam, newaddr) else d.families;
      var d1 := d.(outp := if mine then padded + [Bytes(block[32..32 + datalen])] else padded,
                   curraddr := Some(newaddr + datalen), families := families);
      if last && |families| > 1 && familyid == 0 then Ok(d1.(outp := [], appstartaddr := 0)) else Ok(d1)
  }

  function ReadBlock(d: Reader, block: seq<bv8>, familyid: nat, last: bool): (r: Result<Reader, Error>)
    requires |block| == 512
  {
    if Field(block, 0) != UF2_MAGIC_START0 || Field(block, 1) != UF2_MAGIC_START1 then Err(BadMagic)
    else if Field(block, 2) % 2 == 1 then Ok(d)
    else if Field(block, 4) > 476 then Err(BadSize)
    else Stored(Located(d, block, familyid), block, familyid, last)
  }

  function ReadFrom(d: Reader, buf: seq<bv8>, k: nat, familyid: nat): (r: Result<Reader, Error>)
    requires k <= |buf| / 512
    decreases |buf| / 512 - k
  {
    if k == |buf| / 512 then Ok(d)
    else
      match ReadBlock(d, buf[512 * k..512 * k + 512], familyid, k + 1 == |buf| / 512)
      case Err(e) => Err(e)
      case Ok(d1) => ReadFrom(d1, buf, k + 1, familyid)
  }

  // `b"".join(outp)` fails on anything that is not a bytes object.
  function Join(items: seq<Item>): (r: Result<seq<bv8>, Error>) {
    if items == [] then Ok([])
    else if items[0].Integer? then Err(JoinError)
    else
      match Join(items[1..])
      case Err(e) => Err(e)
      case Ok(rest) => Ok(items[0].data + rest)
  }

  function NewReader(appstartaddr: nat): (r: Reader) {
    Reader(appstartaddr, None, None, map[], [])
  }

  function Read(buf: seq<bv8>, familyid: nat, appstartaddr: nat): (r: Result<(seq<bv8>, nat), Error>) {
    match ReadFrom(NewReader(appstartaddr), buf, 0, familyid)
    case Err(e) => Err(e)
    case Ok(d) =>
      match Join(d.outp)
      case Err(e) => Err(e)
      case Ok(data) => Ok((data, d.appstartaddr))
  }

  lemma {:induction false} JoinExact(items: seq<Item>)
    ensures Join(items).Ok? <==> Integer !in items
  {
    if items != [] {
      JoinExact(items[1..]);
      assert items == [items[0]] + items[1..];
    }
  }

  method JoinItems(items: seq<Item>) returns (r: Result<seq<bv8>, Error>)
    ensures r == Join(items)
    ensures r.Ok? <==> Integer !in items
  {
    JoinExact(items);
    var joined: seq<bv8> := [];
    assert items[0..] == items;
    PrefixedNone(Join(items));
    for i := 0 to |items|
      invariant Join(items) == Prefixed(joined, Join(items[i..]))
    {
      if items[i].Integer? {
        return Err(JoinError);
      }
      assert items[i..][1..] == items[i + 1..];
      JoinStep(joined, items[i].data, Join(items[i + 1..]));
      joined := joined + items[i].data;
    }
    assert joined + [] == joined;
    return Ok(joined);
  }

  function Prefixed(a: seq<bv8>, r: Result<seq<bv8>, Error>): (result: Result<seq<bv8>, Error>) {
    match r
    case Ok(b) => Ok(a + b)
    case Err(e) => Err(e)
  }

  lemma PrefixedNone(r: Result<seq<bv8>, Error>)
    ensures Prefixed([], r) == r
  {
    if r.Ok? {
      assert [] + r.value == r.value;
    }
  }

  lemma JoinStep(a: seq<bv8>, b: seq<bv8>, r: Result<seq<bv8>, Error>)
    ensures Prefixed(a, Prefixed(b, r)) == Prefixed(a + b, r)
  {
    if r.Ok? {
      Regroup(a, b, r.value);
    }
  }

  method ConvertFromUf2(buf: seq<bv8>, familyid: nat, appstartaddr: nat) returns (r: Result<(seq<bv8>, nat), Error>)
    ensures r == Read(buf, familyid, appstartaddr)
  {
    hide Field, HasFamily, Join, Integers;
    var numblocks := |buf| / 512;
    var start: nat, curraddr: Option<nat>, currfamilyid: Option<nat> := appstartaddr, None, None;
    var familiesFound: map<nat, nat> := map[];
    var outp: seq<Item> := [];
    for blockno := 0 to numblocks
      invariant ReadFrom(NewReader(appstartaddr), buf, 0, familyid)
             == ReadFrom(Reader(start, curraddr, currfamilyid, familiesFound, outp), buf, blockno, familyid)
    {
      var ptr := 512 * blockno;
      var block := buf[ptr..ptr + 512];
      if Field(block, 0) != UF2_MAGIC_START0 || Field(block, 1) != UF2_MAGIC_START1 {
        return Err(BadMagic);
      }
      if Field(block, 2) % 2 == 1 {
        continue;
      }
      var datalen := Field(block, 4);
      if datalen > 476 {
        return Err(BadSize);
      }
      var newaddr := Field(block, 3);
      if HasFamily(block) && currfamilyid == None {
        currfamilyid := Some(Field(block, 7));
      }
      if curraddr == None || (HasFamily(block) && Some(Field(block, 7)) != currfamilyid) {
        currfamilyid := Some(Field(block, 7));
        curraddr := Some(newaddr);
        if familyid == 0 || familyid == Field(block, 7) {
          start := newaddr;
        }
      }
      var padding := newaddr - curraddr.value;
      if padding < 0 {
        return Err(OutOfOrder);
      }
      if padding > 10 * 1024 * 1024 {
        return Err(TooMuchPadding);
      }
      if padding % 4 != 0 {
        return Err(OddPadding);
      }
      outp := Pad(outp, padding);
      if familyid == 0 || (HasFamily(block) && familyid == Field(block, 7)) {
        outp := outp + [Bytes(block[32..32 + datalen])];
      }
      curraddr := Some(newaddr + datalen);
      if HasFamily(block) {
        familiesFound := NoteFamily(familiesFound, Field(block, 7), newaddr);
      }
      if blockno == numblocks - 1 {
        if |familiesFound| > 1 && familyid == 0 {
          outp := [];
          start := 0;
        }
      }
    }
    var joined := JoinItems(outp);
    match joined
    case Err(e) => return Err(e);
    case Ok(data) => return Ok((data, start));
  }

  // `outp += b"\x00\x00\x00\x00"` appends four integers to the list.
  method Pad(outp: seq<Item>, padding: nat) returns (r: seq<Item>)
    requires padding % 4 == 0
    ensures r == outp + Integers(padding)
  {
    r := outp;
    var left := padding;
    assert outp + [] == outp;
    while left > 0
      invariant 0 <= left <= padding && left % 4 == 0 && r == outp + Integers(padding - left)
    {
      left := left - 4;
      r := r + [Integer, Integer, Integer, Integer];
      assert Integers(padding - left) == Integers(padding - left - 4) + [Integer, Integer, Integer, Integer];
    }
  }
}
