/** Checking, moving and loading the JSON configuration: Src/remora.cpp. */
module Config {
  import opened Board
  import opened Crc32
  import opened Flash
  import opened LittleEndian
  import opened Uploader

  // ----- Views of the flash -----

  const PAYLOAD: nat := UPLOAD + METADATA_LEN
  const EMPTY: nat := 0xFFFF_FFFF

  function MetaCrc(m: seq<bv8>): (r: bv32)
    requires |m| == FLASH_SIZE
  {
    WordValue(m[UPLOAD..UPLOAD + 4])
  }

  function MetaLength(m: seq<bv8>): (r: nat)
    requires |m| == FLASH_SIZE
  {
    Value32(m[UPLOAD + 4..UPLOAD + 8])
  }

  function MetaJsonLength(m: seq<bv8>): (r: nat)
    requires |m| == FLASH_SIZE
  {
    Value32(m[UPLOAD + 8..UPLOAD + 12])
  }

  function StoredLength(m: seq<bv8>): (r: nat)
    requires |m| == FLASH_SIZE
  {
    Value32(m[STORAGE..STORAGE + 4])
  }

  // `meta->jsonLength + padding`, computed in 32 bits.
  function PaddedLength(m: seq<bv8>): (n: nat)
    requires |m| == FLASH_SIZE
  {
    (MetaJsonLength(m) + PaddingOf(MetaJsonLength(m))) % 0x1_0000_0000
  }

  // checkJson reads past the metadata as far as the length in it says.
  ghost predicate PayloadInFlash(m: seq<bv8>) {
    |m| == FLASH_SIZE && PAYLOAD + PaddedLength(m) <= FLASH_SIZE
  }

  function PaddedPayload(m: seq<bv8>): (r: seq<bv8>)
    requires PayloadInFlash(m)
  {
    m[PAYLOAD..PAYLOAD + PaddedLength(m)]
  }

  // ----- checkJson -----

  predicate LengthTooLong(m: seq<bv8>)
    requires |m| == FLASH_SIZE
  {
    MetaLength(m) > USER_FLASH_END_ADDRESS - JSON_UPLOAD_ADDRESS
  }

  // The longest length that passes, 0x2FFFF, and the first that does not.
  lemma LengthTestLimits(m: seq<bv8>)
    requires |m| == FLASH_SIZE
    ensures MetaLength(m) <= 0x2_FFFF ==> !LengthTooLong(m)
    ensures MetaLength(m) >= 0x3_0000 ==> LengthTooLong(m)
  {
  }

  // What checkJson can be called on: the length test comes first, and only an upload that
  // passes it has its payload read.
  ghost predicate Checkable(m: seq<bv8>) {
    |m| == FLASH_SIZE && (LengthTooLong(m) || PayloadInFlash(m))
  }

  // The accumulator is a global that no code resets.
  function CheckedCrc(m: seq<bv8>, acc: bv32): (r: bv32)
    requires Checkable(m)
  {
    if LengthTooLong(m) then acc else Crc(acc, PaddedPayload(m))
  }

  function CheckResult(m: seq<bv8>, acc: bv32): (r: int)
    requires Checkable(m)
  {
    if LengthTooLong(m) || Crc(acc, PaddedPayload(m)) != MetaCrc(m) then -1 else 1
  }

  lemma CrcOfNothing(acc: bv32)
    ensures Crc(acc, []) == acc
  {
    FlipTwice(acc);
  }

  method CheckJson(g: Globals) returns (r: int)
    requires Checkable(g.flash.cells)
    modifies g`newJson, g`crc32
    ensures r == CheckResult(g.flash.cells, old(g.crc32))
    ensures g.crc32 == CheckedCrc(g.flash.cells, old(g.crc32))
    ensures !g.newJson
  {
    hide Crc, WordValue, Value32;
    ghost var acc := g.crc32;
    var m := g.flash.cells;
    var table := new bv32[256];
    GenerateTable(table);
    if MetaLength(m) > USER_FLASH_END_ADDRESS - JSON_UPLOAD_ADDRESS {
      g.newJson := false;
      return -1;
    }
    var mod := MetaJsonLength(m) % 4;
    var padding := if mod > 0 then 4 - mod else 0;
    CrcOfNothing(acc);
    assert m[PAYLOAD..PAYLOAD] == [];
    var paddedLength := (MetaJsonLength(m) + padding) % 0x1_0000_0000;
    for i := 0 to paddedLength
      invariant g.flash.cells == m && IsTable(table[..])
      invariant g.crc32 == Crc(acc, m[PAYLOAD..PAYLOAD + i])
    {
      var ptr := PAYLOAD + i;
      Streaming(acc, m[PAYLOAD..ptr], [m[ptr]]);
      assert m[PAYLOAD..ptr] + [m[ptr]] == m[PAYLOAD..ptr + 1];
      var c := Update(table, g.crc32, [m[ptr]]);
      g.crc32 := c;
    }
    if g.crc32 != MetaCrc(m) {
      g.newJson := false;
      return -1;
    }
    g.newJson := false;
    return 1;
  }

  // ----- moveJson and clearJsonUploadArea -----

  // The copy loop: byte i is read after the bytes before it have been programmed.
  function CopyFrom(m: seq<bv8>, i: nat, n: nat): (r: seq<bv8>)
    requires |m| == FLASH_SIZE && i <= n <= 0xFFFF
    ensures |r| == FLASH_SIZE
    decreases n - i
  {
    if i == n then m
    else CopyFrom(Program(m, STORAGE + 4 + i, [m[PAYLOAD + i]]), i + 1, n)
  }

  // `uint16_t jsonLength = meta->jsonLength`
  function ShortLength(m: seq<bv8>): (n: nat)
    requires |m| == FLASH_SIZE
    ensures n <= 0xFFFF
  {
    MetaJsonLength(m) % 0x1_0000
  }

  // Of a longer file, only the part beyond a multiple of 64 KiB is moved.
  lemma ShortLengthWraps(m: seq<bv8>, q: nat, n: nat)
    requires |m| == FLASH_SIZE && n < 0x1_0000 && MetaJsonLength(m) == 0x1_0000 * q + n
    ensures ShortLength(m) == n
  {
  }

  function WithLength(m: seq<bv8>): (r: seq<bv8>)
    requires |m| == FLASH_SIZE
    ensures |r| == FLASH_SIZE
  {
    Program(EraseSector(m, GetSector(JSON_STORAGE_ADDRESS)), STORAGE, Bytes32(ShortLength(m)))
  }

  function Moved(m: seq<bv8>): (r: seq<bv8>)
    requires |m| == FLASH_SIZE
    ensures |r| == FLASH_SIZE
  {
    CopyFrom(WithLength(m), 0, ShortLength(m))
  }

  lemma BlankAfterErase(m: seq<bv8>)
    requires |m| == FLASH_SIZE
    ensures IsBlank(EraseSector(m, GetSector(JSON_STORAGE_ADDRESS)), STORAGE, FLASH_SIZE)
  {
  }

  lemma BlankPart(m: seq<bv8>, lo: nat, hi: nat)
    requires lo <= hi <= FLASH_SIZE && IsBlank(m, lo, FLASH_SIZE)
    ensures IsBlank(m, lo, hi)
  {
  }

  lemma BlankBeyond(m: seq<bv8>, at: nat, data: seq<bv8>)
    requires |m| == FLASH_SIZE && at + |data| <= FLASH_SIZE && IsBlank(m, at, FLASH_SIZE)
    ensures IsBlank(Program(m, at, data), at + |data|, FLASH_SIZE)
  {
  }

  method MoveJson(g: Globals)
    requires g.flash.Valid()
    modifies g.flash
    ensures g.flash.Valid() && g.flash.locked
    ensures g.flash.cells == Moved(old(g.flash.cells))
    ensures g.flash.overwrites == old(g.flash.overwrites)
  {
    ghost var before := g.flash.cells;
    var jsonLength := MetaJsonLength(g.flash.cells) % 0x1_0000;
    hide Program, EraseSector, IsBlank, Bytes32;
    var status := g.flash.Unlock();
    var failed := FlashIfErase(g.flash, JSON_STORAGE_ADDRESS);
    BlankAfterErase(before);
    BlankPart(g.flash.cells, STORAGE, STORAGE + 4);
    BlankBeyond(g.flash.cells, STORAGE, Bytes32(jsonLength));
    status := g.flash.ProgramAt(JSON_STORAGE_ADDRESS, Bytes32(jsonLength));
    for i := 0 to jsonLength
      invariant g.flash.Valid() && !g.flash.locked && status == HalOk
      invariant CopyFrom(g.flash.cells, i, jsonLength) == Moved(before)
      invariant IsBlank(g.flash.cells, STORAGE + 4 + i, FLASH_SIZE)
      invariant g.flash.overwrites == old(g.flash.overwrites)
    {
      BlankPart(g.flash.cells, STORAGE + 4 + i, STORAGE + 5 + i);
      BlankBeyond(g.flash.cells, STORAGE + 4 + i, [g.flash.cells[PAYLOAD + i]]);
      if status == HalOk {
        status := g.flash.ProgramAt(JSON_STORAGE_ADDRESS + 4 + i, [g.flash.cells[PAYLOAD + i]]);
      }
    }
    g.flash.Lock();
  }

  method ClearJsonUploadArea(g: Globals)
    requires g.flash.Valid()
    modifies g.flash
    ensures g.flash.Valid() && g.flash.locked
    ensures g.flash.cells == EraseSector(old(g.flash.cells), 6)
    ensures g.flash.overwrites == old(g.flash.overwrites)
  {
    var status := g.flash.Unlock();
    var failed := FlashIfErase(g.flash, JSON_UPLOAD_ADDRESS);
    g.flash.Lock();
  }

  // ----- jsonFromFlash -----

  ghost predicate StoredInFlash(m: seq<bv8>) {
    |m| == FLASH_SIZE && (StoredLength(m) == EMPTY || STORAGE + 4 + StoredLength(m) <= FLASH_SIZE)
  }

  // What a boot loads: the stored file, or the built-in default if the length word is blank.
  function BootConfig(m: seq<bv8>, defaultConfig: seq<bv8>): (r: seq<bv8>)
    requires StoredInFlash(m)
  {
    if StoredLength(m) == EMPTY then defaultConfig
    else m[STORAGE + 4..STORAGE + 4 + StoredLength(m)]
  }

  method JsonFromFlash(g: Globals, defaultConfig: seq<bv8>)
    requires StoredInFlash(g.flash.cells)
    modifies g`strJson, g`staticConfig
    ensures g.strJson == old(g.strJson) + BootConfig(g.flash.cells, defaultConfig)
    ensures g.staticConfig == (old(g.staticConfig) && StoredLength(g.flash.cells) == EMPTY)
  {
    var m := g.flash.cells;
    var jsonLength := StoredLength(m);
    if jsonLength == 0xFFFF_FFFF {
      jsonLength := |defaultConfig|;
      for i := 0 to jsonLength
        invariant g.flash.cells == m
        invariant g.strJson == old(g.strJson) + defaultConfig[..i] && g.staticConfig == old(g.staticConfig)
      {
        g.strJson := g.strJson + [defaultConfig[i]];
      }
    } else {
      for i := 0 to jsonLength
        invariant g.flash.cells == m
        invariant g.strJson == old(g.strJson) + m[STORAGE + 4..STORAGE + 4 + i]
      {
        g.strJson := g.strJson + [m[STORAGE + 4 + i]];
      }
      g.staticConfig := false;
    }
  }

  // ----- The main loop's check -----

  method InstallNewJson(g: Globals) returns (reboot: bool)
    requires g.flash.Valid() && (g.newJson ==> Checkable(g.flash.cells))
    modifies g`newJson, g`crc32, g.flash
    ensures g.flash.Valid() && !g.newJson
    ensures reboot <==> old(g.newJson) && CheckResult(old(g.flash.cells), old(g.crc32)) == 1
    ensures g.flash.cells == if reboot then EraseSector(Moved(old(g.flash.cells)), 6) else old(g.flash.cells)
    ensures g.crc32 == if old(g.newJson) then CheckedCrc(old(g.flash.cells), old(g.crc32)) else old(g.crc32)
  {
    if g.newJson {
      var r := CheckJson(g);
      if r > 0 {
        MoveJson(g);
        ClearJsonUploadArea(g);
        return true;
      }
    }
    return false;
  }
}
