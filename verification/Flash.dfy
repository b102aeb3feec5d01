/** The on-chip flash, its layout, and the helpers of Src/flash_if.cpp. */
module Flash {

  // ----- Layout: Inc/configuration.h -----

  const FLASH_BASE: nat := 0x0800_0000
  const FLASH_SIZE: nat := 0x8_0000
  const JSON_UPLOAD_ADDRESS: nat := 0x0805_0000
  const JSON_STORAGE_ADDRESS: nat := 0x0806_0000
  const USER_FLASH_LAST_PAGE_ADDRESS: nat := 0x0806_0000
  const USER_FLASH_END_ADDRESS: nat := 0x0807_FFFF
  const JSON_SECTOR: nat := 7

  // The same two areas as offsets into the flash.
  const UPLOAD: nat := 0x5_0000
  const STORAGE: nat := 0x6_0000

  // The eight sectors of an STM32F446: four of 16 KiB, one of 64 KiB, three of 128 KiB.
  function SectorStart(sector: nat): (r: nat)
    requires sector <= 8
    ensures r <= FLASH_SIZE
  {
    if sector <= 4 then 0x4000 * sector else 0x2_0000 * (sector - 4)
  }

  function SectorOf(offset: nat): (r: nat)
    requires offset < FLASH_SIZE
    ensures r < 8 && SectorStart(r) <= offset < SectorStart(r + 1)
  {
    if offset < 0x1_0000 then offset / 0x4000 else 4 + offset / 0x2_0000
  }

  // ----- What the hardware does to the cells -----

  function Blank(n: nat): (r: seq<bv8>)
    ensures |r| == n
  {
    seq(n, _ => 0xFF)
  }

  function EraseSector(m: seq<bv8>, sector: nat): (r: seq<bv8>)
    requires |m| == FLASH_SIZE && sector < 8
    ensures |r| == FLASH_SIZE
  {
    m[..SectorStart(sector)] + Blank(SectorStart(sector + 1) - SectorStart(sector)) + m[SectorStart(sector + 1)..]
  }

  function And(a: bv8, b: bv8): (r: bv8) {
    a & b
  }

  function AndBytes(a: seq<bv8>, b: seq<bv8>): (r: seq<bv8>)
    requires |a| == |b|
    ensures |r| == |a|
  {
    seq(|a|, i requires 0 <= i < |a| => And(a[i], b[i]))
  }

  // Programming can only clear bits.
  function Program(m: seq<bv8>, at: nat, data: seq<bv8>): (r: seq<bv8>)
    requires at + |data| <= |m|
    ensures |r| == |m|
  {
    m[..at] + AndBytes(m[at..at + |data|], data) + m[at + |data|..]
  }

  ghost predicate IsBlank(m: seq<bv8>, lo: nat, hi: nat) {
    lo <= hi <= |m| && forall i | lo <= i < hi :: m[i] == 0xFF
  }

  lemma AndOnes(b: bv8)
    ensures 0xFF & b == b
  {
  }

  // On blank cells programming stores the data.
  lemma ProgramBlank(m: seq<bv8>, at: nat, data: seq<bv8>)
    requires IsBlank(m, at, at + |data|)
    ensures Program(m, at, data) == m[..at] + data + m[at + |data|..]
    ensures Program(m, at, data)[at..at + |data|] == data
  {
    var a := m[at..at + |data|];
    forall i | 0 <= i < |data| ensures AndBytes(a, data)[i] == data[i] {
      AndOnes(data[i]);
    }
    assert AndBytes(a, data) == data;
  }

  lemma ProgramFrame(m: seq<bv8>, at: nat, data: seq<bv8>, lo: nat, hi: nat)
    requires at + |data| <= |m| && lo <= hi <= |m|
    requires hi <= at || at + |data| <= lo
    ensures Program(m, at, data)[lo..hi] == m[lo..hi]
  {
  }

  lemma ProgramNothing(m: seq<bv8>, at: nat)
    requires at <= |m|
    ensures Program(m, at, []) == m
  {
    assert m == m[..at] + m[at..];
  }

  lemma ProgramAtIndex(m: seq<bv8>, at: nat, data: seq<bv8>, i: nat)
    requires at + |data| <= |m| && i < |m|
    ensures Program(m, at, data)[i] == if at <= i < at + |data| then And(m[i], data[i - at]) else m[i]
  {
    hide And;
  }

  // Two adjacent programming operations are one.
  lemma ProgramConcat(m: seq<bv8>, at: nat, a: seq<bv8>, b: seq<bv8>)
    requires at + |a| + |b| <= |m|
    ensures Program(Program(m, at, a), at + |a|, b) == Program(m, at, a + b)
  {
    hide Program;
    var l, r := Program(Program(m, at, a), at + |a|, b), Program(m, at, a + b);
    forall i | 0 <= i < |m| ensures l[i] == r[i] {
      ConcatAtIndex(m, at, a, b, i);
    }
  }

  lemma ConcatAtIndex(m: seq<bv8>, at: nat, a: seq<bv8>, b: seq<bv8>, i: nat)
    requires at + |a| + |b| <= |m| && i < |m|
    ensures Program(Program(m, at, a), at + |a|, b)[i] == Program(m, at, a + b)[i]
  {
    hide Program, And;
    ProgramAtIndex(Program(m, at, a), at + |a|, b, i);
    ProgramAtIndex(m, at, a, i);
    ProgramAtIndex(m, at, a + b, i);
    if at <= i < at + |a| {
      assert (a + b)[i - at] == a[i - at];
    } else if at + |a| <= i < at + |a| + |b| {
      assert (a + b)[i - at] == b[i - at - |a|];
    }
  }

  lemma EraseFrame(m: seq<bv8>, sector: nat, lo: nat, hi: nat)
    requires |m| == FLASH_SIZE && sector < 8 && lo <= hi <= |m|
    requires hi <= SectorStart(sector) || SectorStart(sector + 1) <= lo
    ensures EraseSector(m, sector)[lo..hi] == m[lo..hi]
  {
  }

  // Erasing a sector sets exactly the cells that lie in it.
  lemma ErasedCells(m: seq<bv8>, sector: nat, i: nat)
    requires |m| == FLASH_SIZE && sector < 8 && i < FLASH_SIZE
    ensures EraseSector(m, sector)[i] == if SectorOf(i) == sector then 0xFF else m[i]
  {
  }

  // ----- The flash controller -----

  datatype HalStatus = HalOk | HalError

  class FlashDevice {
    var cells: seq<bv8>
    var locked: bool
    // How many programming operations hit a cell that was not blank.
    ghost var overwrites: nat

    ghost predicate Valid()
      reads this
    {
      |cells| == FLASH_SIZE
    }

    constructor (contents: seq<bv8>)
      requires |contents| == FLASH_SIZE
      ensures Valid() && locked && cells == contents && overwrites == 0
    {
      cells, locked, overwrites := contents, true, 0;
    }

    method Unlock() returns (status: HalStatus)
      modifies this`locked
      ensures !locked && status == HalOk
    {
      locked := false;
      status := HalOk;
    }

    method Lock()
      modifies this`locked
      ensures locked
    {
      locked := true;
    }

    method Erase(sector: nat) returns (status: HalStatus)
      requires Valid() && sector < 8
      modifies this`cells
      ensures Valid()
      ensures status == if locked then HalError else HalOk
      ensures cells == if locked then old(cells) else EraseSector(old(cells), sector)
    {
      if locked {
        return HalError;
      }
      cells := EraseSector(cells, sector);
      return HalOk;
    }

    // Byte, half-word or word programming, by the length of `data`.
    method ProgramAt(address: nat, data: seq<bv8>) returns (status: HalStatus)
      requires Valid() && FLASH_BASE <= address && address - FLASH_BASE + |data| <= FLASH_SIZE
      modifies this`cells, this`overwrites
      ensures Valid()
      ensures status == if locked then HalError else HalOk
      ensures cells == if locked then old(cells) else Program(old(cells), address - FLASH_BASE, data)
      ensures overwrites == old(overwrites) +
              if locked || IsBlank(old(cells), address - FLASH_BASE, address - FLASH_BASE + |data|) then 0 else 1
    {
      if locked {
        return HalError;
      }
      var at := address - FLASH_BASE;
      if !IsBlank(cells, at, at + |data|) {
        overwrites := overwrites + 1;
      }
      cells := Program(cells, at, data);
      return HalOk;
    }
  }

  // ----- Src/flash_if.cpp -----

  // The decision chain as written: each upper bound is the last byte of the sector, excluded.
  function GetSector(address: nat): (sector: nat)
    ensures sector < 8
  {
    if address < 0x08003FFF && address >= 0x08000000 then 0
    else if address < 0x08007FFF && address >= 0x08004000 then 1
    else if address < 0x0800BFFF && address >= 0x08008000 then 2
    else if address < 0x0800FFFF && address >= 0x0800C000 then 3
    else if address < 0x0801FFFF && address >= 0x08010000 then 4
    else if address < 0x0803FFFF && address >= 0x08020000 then 5
    else if address < 0x0805FFFF && address >= 0x08040000 then 6
    else if address < 0x0807FFFF && address >= 0x08060000 then 7
    else 0
  }

  // GetSector names the sector an address lies in, except for the last byte of sectors 1 to 7.
  lemma GetSectorExact(offset: nat)
    requires offset < FLASH_SIZE
    ensures GetSector(FLASH_BASE + offset) == SectorOf(offset)
       <==> offset < 0x4000 || offset + 1 != SectorStart(SectorOf(offset) + 1)
  {
  }

  // The last byte of the upload sector is taken for the sector of the vector table.
  lemma GetSectorLastByte()
    ensures SectorOf(0x5FFFF) == 6 && GetSector(0x0805FFFF) == 0
  {
  }

  method FlashIfErase(flash: FlashDevice, startSector: nat) returns (failed: int)
    requires flash.Valid()
    modifies flash`cells
    ensures flash.Valid()
    ensures failed == 0 <==> !flash.locked && startSector <= USER_FLASH_LAST_PAGE_ADDRESS
    ensures failed == 0 || failed == 1
    ensures flash.cells ==
            if failed == 0 then EraseSector(old(flash.cells), GetSector(startSector)) else old(flash.cells)
  {
    if startSector <= USER_FLASH_LAST_PAGE_ADDRESS {
      var status := flash.Erase(GetSector(startSector));
      if status != HalOk {
        return 1;
      }
    } else {
      return 1;
    }
    return 0;
  }

  // The words whose address passes the guard of the loop of FLASH_If_Write.
  predicate PassesGuard(address: nat) {
    address <= USER_FLASH_END_ADDRESS - 4
  }

  // FLASH_If_Write returns 0, 1 or 2 and advances the address over what has been programmed
  // and read back. `data` are 32-bit words, four bytes each.
  method FlashIfWrite(flash: FlashDevice, flashAddress: nat, data: seq<bv8>) returns (status: nat, end: nat)
    requires flash.Valid() && FLASH_BASE <= flashAddress && |data| % 4 == 0 && |data| / 4 < 0x1_0000
    modifies flash`cells, flash`overwrites
    ensures flash.Valid() && status <= 2
    ensures WroteUpTo(old(flash.cells), flash.cells, flashAddress, data, end - flashAddress, status == 2)
    ensures status == 0 ==> end == flashAddress + |data| || !PassesGuard(end)
    ensures status == 1 <==> flash.locked && data != [] && PassesGuard(flashAddress)
    ensures status == 2 ==> !flash.locked && end < flashAddress + |data| && PassesGuard(end)
    ensures status == 2 ==>
              !Sticks(old(flash.cells), end - FLASH_BASE, data[end - flashAddress..end - flashAddress + 4])
    ensures status == 0 && data != [] ==>
              (end == flashAddress + |data| <==> flashAddress + |data| <= USER_FLASH_END_ADDRESS)
  {
    hide Program, WroteUpTo, Sticks, AndBytes;
    var i := 0;
    end := flashAddress;
    ghost var before := flash.cells;
    WroteNothing(before, flashAddress, data);
    while i < |data| / 4 && end <= USER_FLASH_END_ADDRESS - 4
      invariant i <= |data| / 4 && end == flashAddress + 4 * i && flash.Valid()
      invariant i > 0 ==> !flash.locked && end <= USER_FLASH_END_ADDRESS
      invariant WroteUpTo(before, flash.cells, flashAddress, data, 4 * i, false)
    {
      var word := data[4 * i..4 * i + 4];
      WriteOne(before, flash.cells, flashAddress, data, 4 * i);
      var hal := flash.ProgramAt(end, word);
      if hal != HalOk {
        return 1, end;
      }
      if flash.cells[end - FLASH_BASE..end - FLASH_BASE + 4] != word {
        return 2, end;
      }
      end := end + 4;
      i := i + 1;
    }
    status := 0;
  }

  // Programming the word would leave it in these cells.
  ghost predicate Sticks(m: seq<bv8>, at: nat, word: seq<bv8>) {
    at + |word| <= |m| && AndBytes(m[at..at + |word|], word) == word
  }

  // The first n bytes of the data have been programmed and are there, and one more word has
  // been programmed if `more`; nothing else has changed.
  ghost predicate WroteUpTo(before: seq<bv8>, after: seq<bv8>, address: nat, data: seq<bv8>, n: int, more: bool) {
    && |before| == |after| == FLASH_SIZE && FLASH_BASE <= address
    && 0 <= n <= |data| && n % 4 == 0
    && var at, k := address - FLASH_BASE, if more then n + 4 else n;
       && k <= |data| && (k > 0 ==> at + k <= FLASH_SIZE)
       && (if k == 0 then after == before else after == Program(before, at, data[..k]))
       && (n > 0 ==> after[at..at + n] == data[..n])
  }

  // One more word after those programmed so far.
  lemma ProgramWord(before: seq<bv8>, m: seq<bv8>, at: nat, data: seq<bv8>, n: nat)
    requires n + 4 <= |data| && at + n + 4 <= |before|
    requires if n == 0 then m == before else m == Program(before, at, data[..n])
    ensures |m| == |before|
    ensures var word := data[n..n + 4];
            var p := Program(m, at + n, word);
            && p == Program(before, at, data[..n + 4])
            && p[at..at + n] == m[at..at + n]
            && p[at + n..at + n + 4] == AndBytes(before[at + n..at + n + 4], word)
  {
    hide Program, AndBytes;
    var word := data[n..n + 4];
    ProgramNothing(before, at);
    assert data[..0] == [];
    assert data[..n] + word == data[..n + 4];
    ProgramConcat(before, at, data[..n], word);
    ProgramFrame(m, at + n, word, at, at + n);
    ProgramFrame(before, at, data[..n], at + n, at + n + 4);
    ProgramHere(m, at + n, word);
  }

  lemma ProgramHere(m: seq<bv8>, at: nat, data: seq<bv8>)
    requires at + |data| <= |m|
    ensures Program(m, at, data)[at..at + |data|] == AndBytes(m[at..at + |data|], data)
  {
  }

  lemma WroteNothing(before: seq<bv8>, address: nat, data: seq<bv8>)
    requires |before| == FLASH_SIZE && FLASH_BASE <= address
    ensures WroteUpTo(before, before, address, data, 0, false)
  {
  }

  lemma WriteOne(before: seq<bv8>, m: seq<bv8>, address: nat, data: seq<bv8>, n: nat)
    requires WroteUpTo(before, m, address, data, n, false) && n + 4 <= |data| && PassesGuard(address + n)
    ensures var at, word := address - FLASH_BASE + n, data[n..n + 4];
            && at + 4 <= FLASH_SIZE
            && WroteUpTo(before, Program(m, at, word), address, data, n, true)
            && (Program(m, at, word)[at..at + 4] == word <==> Sticks(before, at, word))
            && (Sticks(before, at, word) ==> WroteUpTo(before, Program(m, at, word), address, data, n + 4, false))
  {
    hide Program, AndBytes;
    var at, word := address - FLASH_BASE, data[n..n + 4];
    ProgramWord(before, m, at, data, n);
    var p := Program(m, at + n, word);
    assert p[at..at + n + 4] == p[at..at + n] + p[at + n..at + n + 4];
    assert data[..n + 4] == data[..n] + word;
  }

  // All the words are within the guard if and only if the data end below the last byte of
  // the flash: the last word of the flash is never written.
  lemma GuardExact(address: nat, n: nat)
    requires n > 0 && address % 4 == 0 && n % 4 == 0
    ensures (forall i | 0 <= i < n / 4 :: PassesGuard(address + 4 * i)) <==> address + n < USER_FLASH_END_ADDRESS + 1
  {
    assert PassesGuard(address + 4 * (n / 4 - 1)) <==> address + n <= USER_FLASH_END_ADDRESS;
  }

  // It does happen: the last word of the flash is reported as written and is not.
  method WriteLastWord(flash: FlashDevice, word: seq<bv8>) returns (status: nat)
    requires flash.Valid() && |word| == 4
    modifies flash`cells, flash`overwrites
    ensures status == 0 && flash.cells == old(flash.cells)
  {
    var end;
    status, end := FlashIfWrite(flash, 0x0807_FFFC, word);
  }
}
