/** Intel HEX to UF2: convert_from_hex_to_uf2 of uf2conv.py. */
module Hex {
  import opened LittleEndian
  import opened Uf2
  import opened Uf2RoundTrip
  import opened Wrappers

  datatype HexError =
    | IndexError     // an empty line or a record with too few bytes
    | ValueError     // something that is not a hexadecimal number
    | FieldError     // a block header field that does not fit in 32 bits

  // ----- Lines and records -----

  // `buf.split('\n')`
  function SplitLines(buf: string): (lines: seq<string>)
    ensures lines != []
  {
    if buf == [] then [[]]
    else
      var rest := SplitLines(buf[1..]);
      if buf[0] == '\n' then [[]] + rest else [[buf[0]] + rest[0]] + rest[1..]
  }

  function DigitValue(c: char): (r: Option<bv8>) {
    if '0' <= c <= '9' then Some((c as int - '0' as int) as bv8)
    else if 'a' <= c <= 'f' then Some((c as int - 'a' as int + 10) as bv8)
    else if 'A' <= c <= 'F' then Some((c as int - 'A' as int + 10) as bv8)
    else None
  }

  // `int(s, 16)` of two digits
  function PairValue(hi: char, lo: char): (r: Option<bv8>) {
    match (DigitValue(hi), DigitValue(lo))
    case (Some(h), Some(l)) => Some((h << 4) | l)
    case _ => None
  }

  // The loop that turns a line into numbers leaves the last character alone.
  function RecordFrom(line: string, i: nat): (r: Result<seq<bv8>, HexError>)
    decreases |line| - i
  {
    if i + 1 >= |line| then Ok([])
    else
      match PairValue(line[i], line[i + 1])
      case None => Err(ValueError)
      case Some(b) =>
        match RecordFrom(line, i + 2)
        case Err(e) => Err(e)
        case Ok(rest) => Ok([b] + rest)
  }

  function Pair(rec: seq<bv8>, i: nat): (r: nat)
    requires i + 1 < |rec|
  {
    256 * (rec[i] as int) + (rec[i + 1] as int)
  }

  datatype Write = Write(addr: nat, value: bv8)

  // The data bytes of a record: everything between its header and its checksum.
  function DataWrites(rec: seq<bv8>, addr: nat, i: nat): (r: seq<Write>)
    decreases |rec| - i
  {
    if i + 1 >= |rec| then [] else [Write(addr, rec[i])] + DataWrites(rec, addr + 1, i + 1)
  }

  datatype HexState = HexState(appstartaddr: Option<nat>, upper: nat, writes: seq<Write>)

  datatype Progress = More(state: HexState) | Stop(state: HexState)

  function TakeRecord(s: HexState, rec: seq<bv8>): (r: Result<Progress, HexError>) {
    if |rec| < 4 then Err(IndexError)
    else if rec[3] == 4 then
      if |rec| < 6 then Err(IndexError) else Ok(More(s.(upper := Pair(rec, 4) * 0x1_0000)))
    else if rec[3] == 2 then
      if |rec| < 6 then Err(IndexError) else Ok(More(s.(upper := Pair(rec, 4) * 0x10)))
    else if rec[3] == 1 then Ok(Stop(s))
    else if rec[3] == 0 then
      var addr := s.upper + Pair(rec, 1);
      Ok(More(s.(appstartaddr := if s.appstartaddr == None then Some(addr) else s.appstartaddr,
                 writes := s.writes + DataWrites(rec, addr, 4))))
    else Ok(More(s))
  }

  function TakeLine(s: HexState, line: string): (r: Result<Progress, HexError>) {
    if line == [] then Err(IndexError)
    else if line[0] != ':' then Ok(More(s))
    else
      match RecordFrom(line, 1)
      case Err(e) => Err(e)
      case Ok(rec) => TakeRecord(s, rec)
  }

  function TakeLines(s: HexState, lines: seq<string>): (r: Result<HexState, HexError>)
    decreases lines
  {
    if lines == [] then Ok(s)
    else
      match TakeLine(s, lines[0])
      case Err(e) => Err(e)
      case Ok(Stop(t)) => Ok(t)
      case Ok(More(t)) => TakeLines(t, lines[1..])
  }

  // ----- Pages -----

  // `addr & ~0xff`
  function PageBase(addr: nat): (r: nat)
    ensures r <= addr < r + 256 && r % 256 == 0
  {
    addr - addr % 256
  }

  // The pages when the last byte, w, is stored after the bytes before it.
  function Put(pages: seq<Page>, w: Write): (r: seq<Page>)
    requires ArePages(pages)
    ensures ArePages(r)
  {
    var base := PageBase(w.addr);
    var n := |pages|;
    if n == 0 || pages[n - 1].addr != base then pages + [Page(base, ZeroBytes(256)[w.addr - base := w.value])]
    else pages[n - 1 := Page(base, pages[n - 1].bytes[w.addr - base := w.value])]
  }

  function Paged(ws: seq<Write>): (r: seq<Page>)
    ensures ArePages(r)
  {
    if ws == [] then [] else Put(Paged(ws[..|ws| - 1]), ws[|ws| - 1])
  }

  ghost predicate FieldsFit(pages: seq<Page>, familyid: nat) {
    pages == [] || (|pages| < WORD && familyid < WORD && forall i | 0 <= i < |pages| :: pages[i].addr < WORD)
  }

  function NewHexState(): (r: HexState) {
    HexState(None, 0, [])
  }

  ghost function HexToUf2(buf: string, familyid: nat): (r: Result<seq<bv8>, HexError>) {
    match TakeLines(NewHexState(), SplitLines(buf))
    case Err(e) => Err(e)
    case Ok(s) =>
      if FieldsFit(Paged(s.writes), familyid) then Ok(BlocksFrom(Paged(s.writes), 0, familyid))
      else Err(FieldError)
  }

  // ----- The memory image of a list of stores -----

  // What the last store to an address left there; 0 if there was none.
  function ByteAt(ws: seq<Write>, a: nat): (r: bv8) {
    if ws == [] then 0
    else if ws[|ws| - 1].addr == a then ws[|ws| - 1].value
    else ByteAt(ws[..|ws| - 1], a)
  }

  // Later bytes never go back to an earlier page.
  ghost predicate NeverBack(ws: seq<Write>) {
    forall i, j | 0 <= i < j < |ws| :: PageBase(ws[i].addr) <= PageBase(ws[j].addr)
  }

  ghost predicate Increasing(pages: seq<Page>) {
    forall i, j | 0 <= i < j < |pages| :: pages[i].addr < pages[j].addr
  }

  ghost predicate Touched(ws: seq<Write>, base: nat) {
    exists i | 0 <= i < |ws| :: PageBase(ws[i].addr) == base
  }

  lemma {:induction false} Untouched(ws: seq<Write>, a: nat)
    requires !Touched(ws, PageBase(a))
    ensures ByteAt(ws, a) == 0
  {
    if ws != [] {
      assert PageBase(ws[|ws| - 1].addr) != PageBase(a);
      Untouched(ws[..|ws| - 1], a);
    }
  }

  // One page for every touched page base, and no other.
  ghost predicate Covers(ws: seq<Write>, pages: seq<Page>) {
    && (forall k | 0 <= k < |pages| :: Touched(ws, pages[k].addr))
    && (forall i | 0 <= i < |ws| :: HasPage(pages, PageBase(ws[i].addr)))
  }

  ghost predicate HasPage(pages: seq<Page>, base: nat) {
    exists k | 0 <= k < |pages| :: pages[k].addr == base
  }

  // Every byte of every page is what the stores left at its address.
  ghost predicate Holds(ws: seq<Write>, pages: seq<Page>)
    requires ArePages(pages)
  {
    forall k | 0 <= k < |pages| :: PageHolds(ws, pages[k])
  }

  ghost predicate PageHolds(ws: seq<Write>, page: Page)
    requires |page.bytes| == 256
  {
    forall o | 0 <= o < 256 :: page.bytes[o] == ByteAt(ws, page.addr + o)
  }

  ghost predicate LastPage(ws: seq<Write>, pages: seq<Page>) {
    ws != [] ==> pages != [] && pages[|pages| - 1].addr == PageBase(ws[|ws| - 1].addr)
  }

  lemma ByteAtAppend(front: seq<Write>, w: Write, a: nat)
    ensures ByteAt(front + [w], a) == if w.addr == a then w.value else ByteAt(front, a)
  {
    assert (front + [w])[..|front|] == front;
  }

  lemma BaseOfOffset(base: nat, o: nat, a: nat)
    requires PageBase(a) == base && o < 256
    ensures PageBase(base + o) == base && base <= a < base + 256
  {
  }

  lemma TouchedAppend(front: seq<Write>, w: Write, base: nat)
    ensures Touched(front + [w], base) <==> Touched(front, base) || PageBase(w.addr) == base
  {
    hide PageBase;
    var ws := front + [w];
    assert ws[|front|] == w;
    if Touched(front, base) {
      var i :| 0 <= i < |front| && PageBase(front[i].addr) == base;
      assert PageBase(ws[i].addr) == base;
    }
    if Touched(ws, base) && PageBase(w.addr) != base {
      var i :| 0 <= i < |ws| && PageBase(ws[i].addr) == base;
      assert PageBase(front[i].addr) == base;
    }
  }

  // A page other than the one written keeps its meaning.
  lemma KeepsMeaning(front: seq<Write>, w: Write, page: Page, a: nat)
    requires |page.bytes| == 256 && PageHolds(front, page) && PageBase(a) == page.addr && PageBase(w.addr) != page.addr
    ensures PageHolds(front + [w], page)
  {
    forall o | 0 <= o < 256 ensures page.bytes[o] == ByteAt(front + [w], page.addr + o) {
      BaseOfOffset(page.addr, o, a);
      ByteAtAppend(front, w, page.addr + o);
    }
  }

  // The page written holds the new byte and keeps the others.
  lemma UpdatesMeaning(front: seq<Write>, w: Write, page: Page)
    requires |page.bytes| == 256 && PageHolds(front, page) && PageBase(w.addr) == page.addr
    ensures page.addr <= w.addr < page.addr + 256
    ensures PageHolds(front + [w], Page(page.addr, page.bytes[w.addr - page.addr := w.value]))
  {
    BaseOfOffset(page.addr, 0, w.addr);
    var r := Page(page.addr, page.bytes[w.addr - page.addr := w.value]);
    forall o | 0 <= o < 256 ensures r.bytes[o] == ByteAt(front + [w], r.addr + o) {
      ByteAtAppend(front, w, page.addr + o);
    }
  }

  // A page not touched before starts as zeros.
  lemma FreshMeaning(front: seq<Write>, base: nat, a: nat)
    requires PageBase(a) == base && !Touched(front, base)
    ensures PageHolds(front, Page(base, ZeroBytes(256)))
  {
    var page := Page(base, ZeroBytes(256));
    forall o | 0 <= o < 256 ensures page.bytes[o] == ByteAt(front, page.addr + o) {
      BaseOfOffset(base, o, a);
      Untouched(front, base + o);
    }
  }

  ghost predicate Faithful(ws: seq<Write>, pages: seq<Page>) {
    ArePages(pages) && Increasing(pages) && Covers(ws, pages) && Holds(ws, pages)
  }

  // The page that byte w goes to, before it is stored.
  function Target(pages: seq<Page>, w: Write): (r: Page)
    requires ArePages(pages)
  {
    var base, n := PageBase(w.addr), |pages|;
    if n == 0 || pages[n - 1].addr != base then Page(base, ZeroBytes(256)) else pages[n - 1]
  }

  function Others(pages: seq<Page>, w: Write): (r: seq<Page>)
    requires ArePages(pages)
  {
    var base, n := PageBase(w.addr), |pages|;
    if n == 0 || pages[n - 1].addr != base then pages else pages[..n - 1]
  }

  lemma PutSplits(pages: seq<Page>, w: Write)
    requires ArePages(pages)
    ensures var t := Target(pages, w);
            && |t.bytes| == 256 && t.addr == PageBase(w.addr) && t.addr <= w.addr < t.addr + 256
            && Put(pages, w) == Others(pages, w) + [Page(t.addr, t.bytes[w.addr - t.addr := w.value])]
  {
  }

  lemma PutHolds(front: seq<Write>, w: Write, pages: seq<Page>)
    requires Faithful(front, pages) && LastPage(front, pages)
    requires forall i | 0 <= i < |front| :: PageBase(front[i].addr) <= PageBase(w.addr)
    ensures Faithful(front + [w], Put(pages, w)) && LastPage(front + [w], Put(pages, w))
  {
    hide PageBase, ByteAt, PageHolds, Touched;
    var ws, base, t, others := front + [w], PageBase(w.addr), Target(pages, w), Others(pages, w);
    var r := Put(pages, w);
    PutSplits(pages, w);
    OthersBelow(front, w, pages);
    UpdatesMeaning(front, w, t);
    forall k | 0 <= k < |r| ensures PageHolds(ws, r[k]) && Touched(ws, r[k].addr) {
      TouchedAppend(front, w, r[k].addr);
      if k < |others| {
        var a := TouchingAddress(front, r[k].addr);
        KeepsMeaning(front, w, r[k], a);
      }
    }
    PutCovers(front, w, pages);
  }

  lemma TouchingAddress(ws: seq<Write>, base: nat) returns (a: nat)
    requires Touched(ws, base)
    ensures PageBase(a) == base
  {
    var i :| 0 <= i < |ws| && PageBase(ws[i].addr) == base;
    a := ws[i].addr;
  }

  // The untouched pages all lie below the page written, and that page holds the stores so far.
  lemma OthersBelow(front: seq<Write>, w: Write, pages: seq<Page>)
    requires Faithful(front, pages) && LastPage(front, pages)
    requires forall i | 0 <= i < |front| :: PageBase(front[i].addr) <= PageBase(w.addr)
    ensures var others := Others(pages, w);
            && Increasing(others)
            && (forall k | 0 <= k < |others| ::
                  others[k] == pages[k] && others[k].addr < PageBase(w.addr) && Touched(front, others[k].addr)
                  && PageHolds(front, others[k]))
    ensures PageHolds(front, Target(pages, w))
  {
    var others, base, n := Others(pages, w), PageBase(w.addr), |pages|;
    hide PageBase, ByteAt, PageHolds;
    if n > 0 {
      var i := TouchedBelow(front, w, pages, n - 1);
    }
    if n == 0 || pages[n - 1].addr != base {
      NoPageNoTouch(front, pages, base);
      FreshMeaning(front, base, w.addr);
    }
  }

  lemma NoPageNoTouch(front: seq<Write>, pages: seq<Page>, base: nat)
    requires Covers(front, pages) && forall k | 0 <= k < |pages| :: pages[k].addr != base
    ensures !Touched(front, base)
  {
    forall i | 0 <= i < |front| ensures PageBase(front[i].addr) != base {
      assert HasPage(pages, PageBase(front[i].addr));
    }
  }

  lemma TouchedBelow(front: seq<Write>, w: Write, pages: seq<Page>, k: nat) returns (i: nat)
    requires Covers(front, pages) && k < |pages|
    requires forall i | 0 <= i < |front| :: PageBase(front[i].addr) <= PageBase(w.addr)
    ensures i < |front| && PageBase(front[i].addr) == pages[k].addr <= PageBase(w.addr)
  {
    assert Touched(front, pages[k].addr);
    i :| 0 <= i < |front| && PageBase(front[i].addr) == pages[k].addr;
  }

  lemma PutCovers(front: seq<Write>, w: Write, pages: seq<Page>)
    requires ArePages(pages) && Covers(front, pages)
    ensures forall i | 0 <= i < |front + [w]| :: HasPage(Put(pages, w), PageBase((front + [w])[i].addr))
  {
    hide PageBase;
    var ws, r, n := front + [w], Put(pages, w), |pages|;
    forall i | 0 <= i < |ws| ensures HasPage(r, PageBase(ws[i].addr)) {
      if i < |front| {
        var k :| 0 <= k < n && pages[k].addr == PageBase(front[i].addr);
        assert r[k].addr == pages[k].addr;
      } else {
        assert r[|r| - 1].addr == PageBase(w.addr);
      }
    }
  }

  // For data that never goes back to an earlier page: one block for every touched page, in
  // strictly increasing order, and every byte is the one stored last at its address, or 0.
  lemma {:induction false} PagedIsFaithful(ws: seq<Write>)
    requires NeverBack(ws)
    ensures Faithful(ws, Paged(ws)) && LastPage(ws, Paged(ws))
  {
    hide PageBase;
    if ws != [] {
      var front, w := ws[..|ws| - 1], ws[|ws| - 1];
      assert ws == front + [w];
      PagedIsFaithful(front);
      hide Faithful, LastPage, Put;
      PutHolds(front, w, Paged(front));
    }
  }

  // And only then: blocks in increasing order mean that the data never went back.
  lemma {:induction false} IncreasingMeansNeverBack(ws: seq<Write>)
    requires Increasing(Paged(ws))
    ensures NeverBack(ws)
  {
    hide PageBase;
    if ws != [] {
      var front, w := ws[..|ws| - 1], ws[|ws| - 1];
      var pages := Paged(front);
      assert ws == front + [w];
      PutSplits(pages, w);
      PutKeepsOrder(pages, w);
      IncreasingMeansNeverBack(front);
      PagedIsFaithful(front);
      NeverBackAppend(front, w);
    }
  }

  lemma PutKeepsOrder(pages: seq<Page>, w: Write)
    requires ArePages(pages) && Increasing(Put(pages, w))
    ensures Increasing(pages)
    ensures pages != [] ==> pages[|pages| - 1].addr <= PageBase(w.addr)
  {
    hide PageBase;
    var r, n := Put(pages, w), |pages|;
    assert forall i | 0 <= i < n :: r[i].addr == pages[i].addr;
    assert r[|r| - 1].addr == PageBase(w.addr);
  }

  lemma NeverBackAppend(front: seq<Write>, w: Write)
    requires NeverBack(front) && (front != [] ==> PageBase(front[|front| - 1].addr) <= PageBase(w.addr))
    ensures NeverBack(front + [w])
  {
    hide PageBase;
    var ws := front + [w];
    forall i, j | 0 <= i < j < |ws| ensures PageBase(ws[i].addr) <= PageBase(ws[j].addr) {
      if j == |front| && i < |front| - 1 {
        assert PageBase(front[i].addr) <= PageBase(front[|front| - 1].addr);
      }
    }
  }

  // ----- The script's loops over Block objects -----

  class Block {
    const addr: nat
    var bytes: seq<bv8>

    constructor (addr: nat)
      ensures this.addr == addr && bytes == ZeroBytes(256)
    {
      this.addr := addr;
      bytes := ZeroBytes(256);
    }
  }

  ghost function View(blocks: seq<Block>): (r: seq<Page>)
    reads blocks
  {
    seq(|blocks|, i requires 0 <= i < |blocks| reads blocks => Page(blocks[i].addr, blocks[i].bytes))
  }

  // All blocks are different objects, and `currblock` is the last of them.
  ghost predicate Linked(blocks: seq<Block>, currblock: Block?)
    reads blocks
  {
    && (forall i, j | 0 <= i < j < |blocks| :: blocks[i] != blocks[j])
    && (forall i | 0 <= i < |blocks| :: |blocks[i].bytes| == 256)
    && currblock == if blocks == [] then null else blocks[|blocks| - 1]
  }

  method StoreByte(blocks: seq<Block>, currblock: Block?, addr: nat, value: bv8)
    returns (newBlocks: seq<Block>, newCurr: Block?)
    requires Linked(blocks, currblock)
    modifies blocks
    ensures Linked(newBlocks, newCurr) && newCurr != null
    ensures ArePages(old(View(blocks))) && View(newBlocks) == Put(old(View(blocks)), Write(addr, value))
    ensures forall k | 0 <= k < |newBlocks| :: newBlocks[k] in blocks || fresh(newBlocks[k])
  {
    hide PageBase;
    newBlocks, newCurr := blocks, currblock;
    var base := PageBase(addr);
    if newCurr == null || newCurr.addr != base {
      newCurr := new Block(base);
      newBlocks := newBlocks + [newCurr];
    }
    newCurr.bytes := newCurr.bytes[addr - base := value];
  }

  // The pages that the bytes already stored and those still in the record make.
  method StoreRecord(blocks: seq<Block>, currblock: Block?, rec: seq<bv8>, address: nat, ghost writes: seq<Write>)
    returns (newBlocks: seq<Block>, newCurr: Block?)
    requires Linked(blocks, currblock) && View(blocks) == Paged(writes)
    modifies blocks
    ensures Linked(newBlocks, newCurr)
    ensures View(newBlocks) == Paged(writes + DataWrites(rec, address, 4))
    ensures forall k | 0 <= k < |newBlocks| :: newBlocks[k] in blocks || fresh(newBlocks[k])
  {
    newBlocks, newCurr := blocks, currblock;
    var i, addr := 4, address;
    ghost var done: seq<Write> := writes;
    assert done + DataWrites(rec, addr, 4) == writes + DataWrites(rec, address, 4);
    while i < |rec| - 1
      invariant 4 <= i
      invariant Linked(newBlocks, newCurr) && View(newBlocks) == Paged(done)
      invariant forall k | 0 <= k < |newBlocks| :: newBlocks[k] in blocks || fresh(newBlocks[k])
      invariant done + DataWrites(rec, addr, i) == writes + DataWrites(rec, address, 4)
    {
      ghost var w := Write(addr, rec[i]);
      PagedAppend(done, w);
      assert done + ([w] + DataWrites(rec, addr + 1, i + 1)) == (done + [w]) + DataWrites(rec, addr + 1, i + 1);
      newBlocks, newCurr := StoreByte(newBlocks, newCurr, addr, rec[i]);
      done := done + [w];
      addr := addr + 1;
      i := i + 1;
    }
    assert done + [] == done;
  }

  lemma PagedAppend(ws: seq<Write>, w: Write)
    ensures Paged(ws + [w]) == Put(Paged(ws), w)
  {
    assert (ws + [w])[..|ws|] == ws;
  }

  method ParseRecord(line: string) returns (r: Result<seq<bv8>, HexError>)
    ensures r == RecordFrom(line, 1)
  {
    var i := 1;
    var rec: seq<bv8> := [];
    PrependNone(RecordFrom(line, 1));
    while i < |line| - 1
      invariant 1 <= i && RecordFrom(line, 1) == Prepend(rec, RecordFrom(line, i))
    {
      match PairValue(line[i], line[i + 1])
      case None =>
        return Err(ValueError);
      case Some(b) =>
        PrependStep(rec, b, RecordFrom(line, i + 2));
        rec := rec + [b];
      i := i + 2;
    }
    assert rec + [] == rec;
    return Ok(rec);
  }

  function Prepend(a: seq<bv8>, r: Result<seq<bv8>, HexError>): (result: Result<seq<bv8>, HexError>) {
    match r
    case Ok(b) => Ok(a + b)
    case Err(e) => Err(e)
  }

  lemma PrependNone(r: Result<seq<bv8>, HexError>)
    ensures Prepend([], r) == r
  {
    if r.Ok? {
      assert [] + r.value == r.value;
    }
  }

  lemma PrependStep(a: seq<bv8>, b: bv8, r: Result<seq<bv8>, HexError>)
    ensures Prepend(a, Prepend([b], r)) == Prepend(a + [b], r)
  {
    if r.Ok? {
      assert a + ([b] + r.value) == (a + [b]) + r.value;
    }
  }

  method EncodeBlocks(blocks: seq<Block>, familyid: nat) returns (r: Result<seq<bv8>, HexError>)
    requires forall i | 0 <= i < |blocks| :: |blocks[i].bytes| == 256
    ensures r == if FieldsFit(View(blocks), familyid) then Ok(BlocksFrom(View(blocks), 0, familyid))
                 else Err(FieldError)
  {
    hide BlockBytes;
    ghost var pages := View(blocks);
    var numblocks := |blocks|;
    var resfile: seq<bv8> := [];
    assert [] + BlocksFrom(pages, 0, familyid) == BlocksFrom(pages, 0, familyid);
    for i := 0 to numblocks
      invariant resfile + BlocksFrom(pages, i, familyid) == BlocksFrom(pages, 0, familyid)
      invariant i > 0 ==> numblocks < WORD && familyid < WORD
      invariant forall k | 0 <= k < i :: pages[k].addr < WORD
    {
      if blocks[i].addr >= WORD || numblocks >= WORD || familyid >= WORD {
        assert pages[i].addr == blocks[i].addr;
        return Err(FieldError);
      }
      var block := BlockBytes(Page(blocks[i].addr, blocks[i].bytes), i, numblocks, familyid);
      Regroup(resfile, block, BlocksFrom(pages, i + 1, familyid));
      resfile := resfile + block;
    }
    assert resfile + [] == resfile;
    return Ok(resfile);
  }

  method ConvertFromHexToUf2(buf: string, familyid: nat)
    returns (r: Result<seq<bv8>, HexError>, appstartaddr: Option<nat>)
    ensures r == HexToUf2(buf, familyid)
    ensures r.Ok? ==> appstartaddr == TakeLines(NewHexState(), SplitLines(buf)).value.appstartaddr
  {
    hide SplitLines, RecordFrom, DataWrites, Paged, FieldsFit, BlocksFrom;
    var upper: nat := 0;
    appstartaddr := None;
    var currblock: Block?, blocks: seq<Block> := null, [];
    ghost var writes: seq<Write> := [];
    var lines := SplitLines(buf);
    var n, stopped := 0, false;
    PagedNone();
    assert lines[0..] == lines;
    while n < |lines| && !stopped
      invariant n <= |lines| && Linked(blocks, currblock) && View(blocks) == Paged(writes)
      invariant forall k | 0 <= k < |blocks| :: fresh(blocks[k])
      invariant TakeLines(NewHexState(), lines)
             == (if stopped then Ok(HexState(appstartaddr, upper, writes))
                 else TakeLines(HexState(appstartaddr, upper, writes), lines[n..]))
      decreases |lines| - n, !stopped
    {
      var line := lines[n];
      assert lines[n..][0] == line && lines[n..][1..] == lines[n + 1..];
      n := n + 1;
      if line == [] {
        return Err(IndexError), appstartaddr;
      }
      if line[0] != ':' {
        continue;
      }
      var parsed := ParseRecord(line);
      if parsed.Err? {
        return Err(parsed.error), appstartaddr;
      }
      var rec := parsed.value;
      if |rec| < 4 {
        return Err(IndexError), appstartaddr;
      }
      var tp := rec[3];
      if tp == 4 {
        if |rec| < 6 {
          return Err(IndexError), appstartaddr;
        }
        upper := Pair(rec, 4) * 0x1_0000;
      } else if tp == 2 {
        if |rec| < 6 {
          return Err(IndexError), appstartaddr;
        }
        upper := Pair(rec, 4) * 0x10;
      } else if tp == 1 {
        stopped := true;
      } else if tp == 0 {
        var addr := upper + Pair(rec, 1);
        if appstartaddr == None {
          appstartaddr := Some(addr);
        }
        blocks, currblock := StoreRecord(blocks, currblock, rec, addr, writes);
        writes := writes + DataWrites(rec, addr, 4);
      }
    }
    r := EncodeBlocks(blocks, familyid);
  }

  lemma PagedNone()
    ensures Paged([]) == []
  {
  }
}
