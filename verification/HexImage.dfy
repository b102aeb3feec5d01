/** The memory image described by an Intel HEX file survives the conversion to UF2. */
module HexImage {
  import opened Hex
  import opened LittleEndian
  import opened Uf2
  import opened Uf2RoundTrip
  import opened Wrappers

  // ----- The text of a HEX file -----

  function DigitChar(n: bv8): (r: char)
    requires n < 16
  {
    "0123456789ABCDEF"[n as int]
  }

  lemma DigitRoundTrip(n: bv8)
    requires n < 16
    ensures DigitValue(DigitChar(n)) == Some(n)
    ensures DigitChar(n) != '\n'
  {
    var i := n as int;
    assert n == i as bv8;
    if i < 8 {
      if i < 4 {
        assert i == 0 || i == 1 || i == 2 || i == 3;
      } else {
        assert i == 4 || i == 5 || i == 6 || i == 7;
      }
    } else {
      if i < 12 {
        assert i == 8 || i == 9 || i == 10 || i == 11;
      } else {
        assert i == 12 || i == 13 || i == 14 || i == 15;
      }
    }
  }

  function HighNibble(b: bv8): (n: bv8)
    ensures n < 16
  {
    b >> 4
  }

  function LowNibble(b: bv8): (n: bv8)
    ensures n < 16
  {
    b & 0xF
  }

  lemma Nibbles(b: bv8)
    ensures (HighNibble(b) << 4) | LowNibble(b) == b
  {
  }

  function Digits(rec: seq<bv8>): (s: string)
    ensures |s| == 2 * |rec|
  {
    if rec == [] then [] else [DigitChar(HighNibble(rec[0])), DigitChar(LowNibble(rec[0]))] + Digits(rec[1..])
  }

  // A line of a HEX file, with or without a carriage return before the line feed.
  function LineOf(rec: seq<bv8>, cr: bool): (r: string) {
    [':'] + Digits(rec) + if cr then ['\r'] else []
  }

  lemma {:induction false} DigitsParse(line: string, i: nat, rec: seq<bv8>, tail: string)
    requires i <= |line| && line[i..] == Digits(rec) + tail && |tail| <= 1
    ensures RecordFrom(line, i) == Ok(rec)
    decreases rec
  {
    if rec != [] {
      var h, l := HighNibble(rec[0]), LowNibble(rec[0]);
      DigitRoundTrip(h);
      DigitRoundTrip(l);
      Nibbles(rec[0]);
      assert line[i] == line[i..][0] && line[i + 1] == line[i..][1];
      assert line[i + 2..] == line[i..][2..];
      DigitsParse(line, i + 2, rec[1..], tail);
      assert [rec[0]] + rec[1..] == rec;
    }
  }

  lemma LineParses(rec: seq<bv8>, cr: bool)
    ensures RecordFrom(LineOf(rec, cr), 1) == Ok(rec)
  {
    var tail := if cr then ['\r'] else [];
    assert LineOf(rec, cr)[1..] == Digits(rec) + tail;
    DigitsParse(LineOf(rec, cr), 1, rec, tail);
  }

  lemma {:induction false} DigitsHaveNoNewline(rec: seq<bv8>)
    ensures '\n' !in Digits(rec)
  {
    if rec != [] {
      DigitRoundTrip(HighNibble(rec[0]));
      DigitRoundTrip(LowNibble(rec[0]));
      DigitsHaveNoNewline(rec[1..]);
    }
  }

  lemma {:induction false} SplitFirst(line: string, rest: string)
    requires '\n' !in line
    ensures SplitLines(line + ['\n'] + rest) == [line] + SplitLines(rest)
  {
    var s := line + ['\n'] + rest;
    if line == [] {
      assert s[1..] == rest;
    } else {
      assert s[1..] == line[1..] + ['\n'] + rest;
      SplitFirst(line[1..], rest);
      assert SplitLines(s[1..])[0] == line[1..];
      assert [line[0]] + line[1..] == line;
    }
  }

  // The text of a HEX file: a line feed after every record, or (not `closed`) after every
  // record but the last.
  function Text(recs: seq<seq<bv8>>, cr: bool, closed: bool): (s: string) {
    if recs == [] then []
    else if |recs| == 1 && !closed then LineOf(recs[0], cr)
    else LineOf(recs[0], cr) + ['\n'] + Text(recs[1..], cr, closed)
  }

  // The records up to the end-of-file record. In a closed text without one, the empty string
  // after the last line feed is taken for a line and has no first character.
  function TakeRecords(s: HexState, recs: seq<seq<bv8>>, closed: bool): (r: Result<HexState, HexError>)
    decreases recs
  {
    if recs == [] then if closed then Err(IndexError) else Ok(s)
    else
      match TakeRecord(s, recs[0])
      case Err(e) => Err(e)
      case Ok(Stop(t)) => Ok(t)
      case Ok(More(t)) => TakeRecords(t, recs[1..], closed)
  }

  // Parsing the text of a list of records takes exactly those records.
  lemma {:induction false} TextParses(s: HexState, recs: seq<seq<bv8>>, cr: bool, closed: bool)
    requires closed || recs != []
    ensures TakeLines(s, SplitLines(Text(recs, cr, closed))) == TakeRecords(s, recs, closed)
    decreases recs
  {
    hide TakeRecord, LineOf;
    if recs == [] {
      assert SplitLines([]) == [[]];
    } else {
      var line := LineOf(recs[0], cr);
      LineFacts(recs[0], cr);
      var r := TakeRecord(s, recs[0]);
      assert TakeLine(s, line) == r;
      if |recs| == 1 && !closed {
        SplitOnly(line);
        assert recs[1..] == [];
      } else {
        var rest := Text(recs[1..], cr, closed);
        SplitFirst(line, rest);
        assert SplitLines(Text(recs, cr, closed))[1..] == SplitLines(rest);
        if r.Ok? && r.value.More? {
          TextParses(r.value.state, recs[1..], cr, closed);
        }
      }
    }
  }

  lemma {:induction false} SplitOnly(line: string)
    requires '\n' !in line
    ensures SplitLines(line) == [line]
  {
    if line != [] {
      SplitOnly(line[1..]);
      assert [line[0]] + line[1..] == line;
    }
  }

  // ----- Which texts can be converted -----

  predicate IsEnd(rec: seq<bv8>) {
    |rec| >= 4 && rec[3] == 1
  }

  // A record with its header, and with an address if it is of type 2 or 4.
  predicate LongEnough(rec: seq<bv8>) {
    |rec| >= 4 && (rec[3] == 2 || rec[3] == 4 ==> |rec| >= 6)
  }

  ghost predicate EndsAt(recs: seq<seq<bv8>>, k: nat) {
    k < |recs| && IsEnd(recs[k]) && forall j | 0 <= j < k :: LongEnough(recs[j])
  }

  // What the text must contain: an end-of-file record with nothing too short before it, or,
  // if no line feed follows the last record, nothing too short at all.
  ghost predicate Readable(recs: seq<seq<bv8>>, closed: bool) {
    || (exists k: nat :: EndsAt(recs, k))
    || (!closed && forall j | 0 <= j < |recs| :: LongEnough(recs[j]))
  }

  lemma ReadableRest(recs: seq<seq<bv8>>, closed: bool)
    requires recs != [] && LongEnough(recs[0]) && !IsEnd(recs[0])
    ensures Readable(recs, closed) <==> Readable(recs[1..], closed)
  {
    hide LongEnough, IsEnd;
    if k: nat :| EndsAt(recs, k) {
      assert EndsAt(recs[1..], k - 1);
    }
    if k: nat :| EndsAt(recs[1..], k) {
      assert EndsAt(recs, k + 1);
    }
  }

  lemma ReadableFirst(recs: seq<seq<bv8>>, closed: bool)
    requires recs != []
    ensures IsEnd(recs[0]) ==> Readable(recs, closed)
    ensures !LongEnough(recs[0]) ==> !Readable(recs, closed)
  {
    if IsEnd(recs[0]) {
      assert EndsAt(recs, 0);
    }
  }

  lemma RecordKinds(s: HexState, rec: seq<bv8>)
    ensures TakeRecord(s, rec).Ok? <==> LongEnough(rec)
    ensures LongEnough(rec) ==> (TakeRecord(s, rec).value.Stop? <==> IsEnd(rec))
  {
  }

  lemma {:induction false} RecordsReadable(s: HexState, recs: seq<seq<bv8>>, closed: bool)
    ensures TakeRecords(s, recs, closed).Ok? <==> Readable(recs, closed)
    decreases recs
  {
    if recs != [] {
      hide TakeRecord, LongEnough, IsEnd, Readable;
      RecordKinds(s, recs[0]);
      ReadableFirst(recs, closed);
      var r := TakeRecord(s, recs[0]);
      if r.Ok? && r.value.More? {
        ReadableRest(recs, closed);
        RecordsReadable(r.value.state, recs[1..], closed);
      }
    }
  }

  // A text parses if and only if its records are readable: the end-of-file record is needed
  // exactly when a line feed follows the last record.
  lemma TextParsesExact(recs: seq<seq<bv8>>, cr: bool, closed: bool)
    requires closed || recs != []
    ensures TakeLines(NewHexState(), SplitLines(Text(recs, cr, closed))).Ok? <==> Readable(recs, closed)
  {
    TextParses(NewHexState(), recs, cr, closed);
    RecordsReadable(NewHexState(), recs, closed);
  }

  // One data record alone: with a line feed behind it the conversion fails, without it not.
  lemma FinalLineFeedMatters(rec: seq<bv8>, cr: bool)
    requires |rec| >= 4 && rec[3] == 0
    ensures TakeLines(NewHexState(), SplitLines(LineOf(rec, cr) + ['\n'])).Err?
    ensures TakeLines(NewHexState(), SplitLines(LineOf(rec, cr))).Ok?
  {
    assert Text([rec], cr, true) == LineOf(rec, cr) + ['\n'] by {
      assert [rec][1..] == [];
      assert LineOf(rec, cr) + ['\n'] + [] == LineOf(rec, cr) + ['\n'];
    }
    TextParsesExact([rec], cr, true);
    TextParsesExact([rec], cr, false);
    assert !Readable([rec], true) && Readable([rec], false);
  }

  lemma LineFacts(rec: seq<bv8>, cr: bool)
    ensures var line := LineOf(rec, cr);
            line != [] && line[0] == ':' && '\n' !in line && RecordFrom(line, 1) == Ok(rec)
  {
    DigitsHaveNoNewline(rec);
    LineParses(rec, cr);
  }

  // ----- What the records mean -----

  // Two digits of either case, the first the more significant.
  lemma PairMeaning(m: nat, n: nat, upper: bool)
    requires m < 16 && n < 16
    ensures var digits := if upper then "0123456789ABCDEF" else "0123456789abcdef";
            var v := PairValue(digits[m], digits[n]);
            v.Some? && v.value as int == 16 * m + n
  {
    var digits := if upper then "0123456789ABCDEF" else "0123456789abcdef";
    DigitMeaning(m, upper);
    DigitMeaning(n, upper);
    hide DigitValue;
    ByteValue(m);
    ByteValue(n);
    ByteValue(16 * m + n);
    NibblesJoin(m as bv8, n as bv8);
  }

  lemma DigitChars(n: nat, upper: bool)
    requires n < 16
    ensures var c := (if upper then "0123456789ABCDEF" else "0123456789abcdef")[n];
            c as int == if n < 10 then '0' as int + n else (if upper then 'A' else 'a') as int + n - 10
  {
    if n < 8 {
      assert n == 0 || n == 1 || n == 2 || n == 3 || n == 4 || n == 5 || n == 6 || n == 7;
    } else {
      assert n == 8 || n == 9 || n == 10 || n == 11 || n == 12 || n == 13 || n == 14 || n == 15;
    }
  }

  lemma DigitMeaning(n: nat, upper: bool)
    requires n < 16
    ensures DigitValue((if upper then "0123456789ABCDEF" else "0123456789abcdef")[n]) == Some(n as bv8)
  {
    DigitChars(n, upper);
  }

  lemma NibblesJoin(h: bv8, l: bv8)
    requires h < 16 && l < 16
    ensures (h << 4) | l == 16 * h + l
  {
  }

  // The record that sets the base for those after it: type 4 in units of 2^16, type 2 of 2^4.
  function AddressRecord(tp: bv8, u: nat, checksum: bv8): (rec: seq<bv8>) {
    [2, 0, 0, tp, (u / 256 % 256) as bv8, (u % 256) as bv8, checksum]
  }

  // A data record: count, address, type 0, the data, a checksum.
  function DataRecord(count: bv8, a: nat, data: seq<bv8>, checksum: bv8): (rec: seq<bv8>) {
    [count, (a / 256 % 256) as bv8, (a % 256) as bv8, 0] + data + [checksum]
  }

  lemma {:induction false} DataWritesAre(rec: seq<bv8>, addr: nat, i: nat)
    requires i < |rec|
    ensures var ws := DataWrites(rec, addr, i);
            && |ws| == |rec| - 1 - i
            && forall k | 0 <= k < |ws| :: ws[k] == Write(addr + k, rec[i + k])
    decreases |rec| - i
  {
    if i + 1 < |rec| {
      DataWritesAre(rec, addr + 1, i + 1);
      var ws, rest := DataWrites(rec, addr, i), DataWrites(rec, addr + 1, i + 1);
      assert ws == [Write(addr, rec[i])] + rest;
    }
  }

  // Records of other types are passed over, and so are lines that do not begin with a colon.
  lemma OthersIgnored(s: HexState, rec: seq<bv8>, line: string)
    ensures |rec| >= 4 && rec[3] != 0 && rec[3] != 1 && rec[3] != 2 && rec[3] != 4 ==> TakeRecord(s, rec) == Ok(More(s))
    ensures line != [] && line[0] != ':' ==> TakeLine(s, line) == Ok(More(s))
  {
  }

  lemma AddressSets(s: HexState, tp: bv8, u: nat, checksum: bv8)
    requires u < 0x1_0000 && (tp == 4 || tp == 2)
    ensures TakeRecord(s, AddressRecord(tp, u, checksum))
         == Ok(More(s.(upper := (if tp == 4 then 0x1_0000 else 0x10) * u)))
  {
    AddressParts(tp, u, checksum);
    hide AddressRecord, Pair;
  }

  lemma AddressParts(tp: bv8, u: nat, checksum: bv8)
    requires u < 0x1_0000
    ensures var rec := AddressRecord(tp, u, checksum);
            |rec| == 7 && rec[3] == tp && Pair(rec, 4) == u
  {
    AddressBytes(u);
  }

  lemma DataLands(s: HexState, count: bv8, a: nat, data: seq<bv8>, checksum: bv8)
    requires a < 0x1_0000
    ensures var r := TakeRecord(s, DataRecord(count, a, data, checksum));
            && r.Ok? && r.value.More?
            && r.value.state.upper == s.upper
            && r.value.state.appstartaddr == (if s.appstartaddr == None then Some(s.upper + a) else s.appstartaddr)
            && |r.value.state.writes| == |s.writes| + |data|
            && r.value.state.writes[..|s.writes|] == s.writes
            && forall i | 0 <= i < |data| :: r.value.state.writes[|s.writes| + i] == Write(s.upper + a + i, data[i])
  {
    var rec := DataRecord(count, a, data, checksum);
    DataParts(count, a, data, checksum);
    hide DataRecord, Pair, DataWrites;
    DataWritesAre(rec, s.upper + a, 4);
    var ws := DataWrites(rec, s.upper + a, 4);
    assert (s.writes + ws)[..|s.writes|] == s.writes;
    forall i | 0 <= i < |data|
      ensures (s.writes + ws)[|s.writes| + i] == Write(s.upper + a + i, data[i])
    {
      assert ws[i] == Write(s.upper + a + i, rec[4 + i]);
    }
  }

  lemma DataParts(count: bv8, a: nat, data: seq<bv8>, checksum: bv8)
    requires a < 0x1_0000
    ensures var rec := DataRecord(count, a, data, checksum);
            && |rec| == 5 + |data| && rec[3] == 0 && Pair(rec, 1) == a
            && forall i | 0 <= i < |data| :: rec[4 + i] == data[i]
  {
    AddressBytes(a);
  }

  lemma AddressBytes(a: nat)
    requires a < 0x1_0000
    ensures 256 * ((a / 256 % 256) as bv8 as int) + ((a % 256) as bv8 as int) == a
  {
    TwoDigits(a);
    ByteValue(a / 256 % 256);
    ByteValue(a % 256);
    hide *;
  }

  lemma TwoDigits(a: nat)
    requires a < 0x1_0000
    ensures 256 * (a / 256 % 256) + a % 256 == a
  {
  }

  // An address record and a data record, after any others: byte i of the data goes to the
  // base, plus the data record's address, plus i. The first data record of a file sets the
  // start address.
  lemma RecordsLand(s: HexState, tp: bv8, u: nat, c1: bv8, count: bv8, a: nat, data: seq<bv8>, c2: bv8)
    requires u < 0x1_0000 && a < 0x1_0000 && (tp == 4 || tp == 2)
    ensures var base := (if tp == 4 then 0x1_0000 else 0x10) * u;
            var r := TakeRecords(s, [AddressRecord(tp, u, c1), DataRecord(count, a, data, c2)], false);
            && r.Ok?
            && r.value.appstartaddr == (if s.appstartaddr == None then Some(base + a) else s.appstartaddr)
            && |r.value.writes| == |s.writes| + |data|
            && r.value.writes[..|s.writes|] == s.writes
            && forall i | 0 <= i < |data| :: r.value.writes[|s.writes| + i] == Write(base + a + i, data[i])
  {
    var base := (if tp == 4 then 0x1_0000 else 0x10) * u;
    var first, second := AddressRecord(tp, u, c1), DataRecord(count, a, data, c2);
    AddressSets(s, tp, u, c1);
    DataLands(s.(upper := base), count, a, data, c2);
    hide TakeRecord, AddressRecord, DataRecord;
    assert [first, second][1..] == [second] && [second][1..] == [];
    var t := s.(upper := base);
    assert TakeRecords(s, [first, second], false) == TakeRecords(t, [second], false);
    var v := TakeRecord(t, second).value.state;
    assert TakeRecords(t, [second], false) == TakeRecords(v, [], false) == Ok(v);
  }

  // ----- The image -----

  lemma ContiguousAddress(pages: seq<Page>, k: nat)
    requires Contiguous(pages) && k < |pages|
    ensures pages[k].addr == pages[0].addr + 256 * k
  {
    if k > 0 {
      ContiguousAddress(pages, k - 1);
    }
  }

  lemma ByteOfImage(ws: seq<Write>, pages: seq<Page>, i: nat)
    requires ArePages(pages) && Holds(ws, pages) && Contiguous(pages) && i < 256 * |pages|
    ensures |Data(pages)| == 256 * |pages| && Data(pages)[i] == ByteAt(ws, pages[0].addr + i)
  {
    var k, o := i / 256, i % 256;
    DataAt(pages, i);
    ContiguousAddress(pages, k);
    hide Data, ByteAt, Contiguous;
    assert PageHolds(ws, pages[k]);
    assert pages[k].bytes[o] == ByteAt(ws, pages[k].addr + o);
    assert pages[k].addr + o == pages[0].addr + i;
  }

  lemma DataIsImage(ws: seq<Write>, pages: seq<Page>)
    requires ArePages(pages) && Holds(ws, pages) && Contiguous(pages) && pages != []
    ensures |Data(pages)| == 256 * |pages|
    ensures forall i | 0 <= i < |Data(pages)| :: Data(pages)[i] == ByteAt(ws, pages[0].addr + i)
  {
    hide Data, ByteAt, Contiguous, Holds;
    DataLength(pages);
    forall i | 0 <= i < |Data(pages)| ensures Data(pages)[i] == ByteAt(ws, pages[0].addr + i) {
      ByteOfImage(ws, pages, i);
    }
  }

  // `data`, placed at `start`, is the memory from the first page's base to the last page's
  // end: what the stores left, and zero where there was none.
  ghost predicate IsImage(ws: seq<Write>, data: seq<bv8>, start: nat) {
    var pages := Paged(ws);
    && pages != [] && start == pages[0].addr && |data| == 256 * |pages|
    && forall i | 0 <= i < |data| :: data[i] == ByteAt(ws, start + i)
  }

  function Reread(ws: seq<Write>, f: nat, g: nat, start: nat): (r: Result<(seq<bv8>, nat), Error>) {
    Read(BlocksFrom(Paged(ws), 0, f), g, start)
  }

  lemma PagesAreImage(ws: seq<Write>)
    requires Contiguous(Paged(ws)) && Paged(ws) != []
    ensures NeverBack(ws) && IsImage(ws, Data(Paged(ws)), Paged(ws)[0].addr)
  {
    ContiguousIncreases(Paged(ws));
    IncreasingMeansNeverBack(ws);
    PagedIsFaithful(ws);
    DataIsImage(ws, Paged(ws));
  }

  lemma PagedIsWritable(ws: seq<Write>, f: nat)
    requires ws != [] && FieldsFit(Paged(ws), f)
    ensures Paged(ws) != [] && Writable(Paged(ws), f)
  {
  }

  lemma ContiguousIncreases(pages: seq<Page>)
    requires Contiguous(pages)
    ensures Increasing(pages)
  {
    forall i, j | 0 <= i < j < |pages| ensures pages[i].addr < pages[j].addr {
      ContiguousAddress(pages, i);
      ContiguousAddress(pages, j);
    }
  }

  lemma RereadIs(ws: seq<Write>, f: nat, g: nat, start: nat)
    requires Paged(ws) != [] && Writable(Paged(ws), f) && Takes(g, f)
    ensures var pages, r := Paged(ws), Reread(ws, f, g, start);
            && (r.Ok? <==> Contiguous(pages))
            && (r.Ok? ==> r.value == (Data(pages), pages[0].addr))
  {
    hide Read, Data, Writable, Contiguous, Paged, BlocksFrom;
    ReadBack(Paged(ws), f, g, start);
  }

  // Reading back the UF2 file of a list of stores succeeds exactly when its pages follow each
  // other without a hole; the stores then never went back to an earlier page, and the result
  // is the memory image.
  lemma ImageSurvives(ws: seq<Write>, f: nat, g: nat, start: nat)
    requires ws != [] && FieldsFit(Paged(ws), f) && Takes(g, f)
    ensures var r := Reread(ws, f, g, start);
            && (r.Ok? <==> Contiguous(Paged(ws)))
            && (r.Ok? ==> NeverBack(ws) && IsImage(ws, r.value.0, r.value.1))
  {
    PagedIsWritable(ws, f);
    hide Reread, Contiguous, Writable, IsImage, Paged, Data, NeverBack;
    RereadIs(ws, f, g, start);
    if Contiguous(Paged(ws)) {
      PagesAreImage(ws);
    }
  }

  // The data bytes of a HEX file given by its records.
  function WritesOf(recs: seq<seq<bv8>>, closed: bool): (ws: seq<Write>) {
    match TakeRecords(NewHexState(), recs, closed)
    case Ok(s) => s.writes
    case Err(_) => []
  }

  // End to end: the text of a HEX file, converted and read back, gives the memory image its
  // records describe exactly when the pages follow each other without a hole.
  lemma HexFileSurvives(recs: seq<seq<bv8>>, cr: bool, closed: bool, f: nat, g: nat, start: nat)
    requires Readable(recs, closed)
    requires WritesOf(recs, closed) != [] && FieldsFit(Paged(WritesOf(recs, closed)), f) && Takes(g, f)
    ensures var ws, uf2 := WritesOf(recs, closed), HexToUf2(Text(recs, cr, closed), f);
            && uf2.Ok?
            && var r := Read(uf2.value, g, start);
               && (r.Ok? <==> Contiguous(Paged(ws)))
               && (r.Ok? ==> IsImage(ws, r.value.0, r.value.1))
  {
    RecordsReadable(NewHexState(), recs, closed);
    assert recs != [];
    TextParses(NewHexState(), recs, cr, closed);
    hide TakeRecords, TakeLines, SplitLines, Text, Paged, Read, BlocksFrom, IsImage, Contiguous, NeverBack, Readable;
    ImageSurvives(WritesOf(recs, closed), f, g, start);
  }
}
