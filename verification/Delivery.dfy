/** Configuration delivery from upload_config.py to the next boot. */
module Delivery {
  import opened Board
  import opened Config
  import opened Crc32
  import opened Crc32Theory
  import opened Flash
  import opened LittleEndian
  import opened TftpProtocol
  import opened Uploader

  // ----- A genuine image in the upload area -----

  // Metadata and file fit between the upload and the storage address.
  ghost predicate ConfigFits(config: seq<bv8>) {
    METADATA_LEN + |config| <= STORAGE - UPLOAD
  }

  ghost predicate HoldsImage(m: seq<bv8>, config: seq<bv8>) {
    && |m| == FLASH_SIZE
    && ConfigFits(config)
    && m[UPLOAD..UPLOAD + |Image(config)|] == Image(config)
  }

  lemma SubSlice(m: seq<bv8>, at: nat, image: seq<bv8>, lo: nat, hi: nat)
    requires at + |image| <= |m| && m[at..at + |image|] == image && lo <= hi <= |image|
    ensures m[at + lo..at + hi] == image[lo..hi]
  {
    forall i | 0 <= i < hi - lo ensures m[at + lo..at + hi][i] == image[lo..hi][i] {
      assert m[at..at + |image|][lo + i] == image[lo + i];
    }
  }

  lemma ImageParts(config: seq<bv8>)
    ensures var image := Image(config);
            && image[0..4] == WordBytes(Crc(0, PadToWord(config)))
            && image[4..8] == Bytes32((|config| + 3) / 4)
            && image[8..12] == Bytes32(|config|)
            && image[512..|image|] == PadToWord(config)
  {
    hide WordBytes, Bytes32, Crc, PadToWord;
  }

  lemma ImageSlices(m: seq<bv8>, config: seq<bv8>)
    requires HoldsImage(m, config)
    ensures m[UPLOAD..UPLOAD + 4] == WordBytes(Crc(0, PadToWord(config)))
    ensures m[UPLOAD + 4..UPLOAD + 8] == Bytes32((|config| + 3) / 4)
    ensures m[UPLOAD + 8..UPLOAD + 12] == Bytes32(|config|)
    ensures PAYLOAD + |PadToWord(config)| <= FLASH_SIZE
    ensures m[PAYLOAD..PAYLOAD + |PadToWord(config)|] == PadToWord(config)
    ensures m[PAYLOAD..PAYLOAD + |config|] == config
  {
    hide WordBytes, Bytes32, Crc, Image, PadToWord;
    var image := Image(config);
    ImageParts(config);
    SubSlice(m, UPLOAD, image, 0, 4);
    SubSlice(m, UPLOAD, image, 4, 8);
    SubSlice(m, UPLOAD, image, 8, 12);
    SubSlice(m, UPLOAD, image, 512, |image|);
    SubSlice(m, PAYLOAD, PadToWord(config), 0, |config|);
  }

  // The metadata that the uploader wrote is read back unchanged.
  lemma ImageReadsBack(m: seq<bv8>, config: seq<bv8>)
    requires HoldsImage(m, config)
    ensures MetaCrc(m) == Crc(0, PadToWord(config))
    ensures MetaLength(m) == (|config| + 3) / 4
    ensures MetaJsonLength(m) == |config|
    ensures PayloadInFlash(m) && PaddedPayload(m) == PadToWord(config)
    ensures m[PAYLOAD..PAYLOAD + |config|] == config
  {
    hide WordBytes, WordValue, Bytes32, Value32, Crc, PadToWord;
    ImageSlices(m, config);
    WordValueOfBytes(Crc(0, PadToWord(config)));
    Value32OfBytes32((|config| + 3) / 4);
    Value32OfBytes32(|config|);
  }

  // ----- checkJson -----

  // A genuine image is accepted exactly when the accumulator is still zero.
  lemma GenuineAcceptedIff(m: seq<bv8>, config: seq<bv8>, acc: bv32)
    requires HoldsImage(m, config)
    ensures PayloadInFlash(m)
    ensures CheckResult(m, acc) == 1 <==> acc == 0
  {
    ImageReadsBack(m, config);
    CrcFromAccumulator(acc, PadToWord(config));
  }

  // The payload of `bad` differs from that of `m`, but only within 32 consecutive bits.
  ghost predicate BurstDamage(m: seq<bv8>, bad: seq<bv8>, w: nat) {
    && PayloadInFlash(m) && PayloadInFlash(bad)
    && m[UPLOAD..UPLOAD + 12] == bad[UPLOAD..UPLOAD + 12]
    && PaddedPayload(m) != PaddedPayload(bad)
    && DifferWithin(PaddedPayload(m), PaddedPayload(bad), w, 32)
  }

  lemma BurstRejected(m: seq<bv8>, bad: seq<bv8>, w: nat, acc: bv32)
    requires BurstDamage(m, bad, w)
    ensures CheckResult(m, acc) == 1 ==> CheckResult(bad, acc) == -1
  {
    SubSlice(m, UPLOAD, bad[UPLOAD..UPLOAD + 12], 0, 4);
    SubSlice(bad, UPLOAD, bad[UPLOAD..UPLOAD + 12], 0, 4);
    SubSlice(m, UPLOAD, bad[UPLOAD..UPLOAD + 12], 4, 8);
    SubSlice(bad, UPLOAD, bad[UPLOAD..UPLOAD + 12], 4, 8);
    BurstDetected(acc, PaddedPayload(m), PaddedPayload(bad), w);
  }

  // A blank upload area is stopped at the length test, and so leaves the accumulator alone.
  lemma BlankIsRejected(m: seq<bv8>, acc: bv32)
    requires |m| == FLASH_SIZE && IsBlank(m, UPLOAD, STORAGE)
    ensures LengthTooLong(m) && Checkable(m) && CheckResult(m, acc) == -1 && CheckedCrc(m, acc) == acc
  {
    hide Value32;
    assert m[UPLOAD + 4..UPLOAD + 8] == [0xFF, 0xFF, 0xFF, 0xFF];
    AllOnesValue(m[UPLOAD + 4..UPLOAD + 8]);
  }

  // A byte length of 2^32 - 3 or more wraps to a padded length of 0: nothing is read, and the
  // upload is accepted if and only if its CRC word is the accumulator.
  lemma WrappedLength(m: seq<bv8>, acc: bv32)
    requires |m| == FLASH_SIZE && MetaJsonLength(m) > 0xFFFF_FFFC && !LengthTooLong(m)
    ensures PayloadInFlash(m) && PaddedPayload(m) == []
    ensures CheckResult(m, acc) == 1 <==> MetaCrc(m) == acc
  {
    assert MetaJsonLength(m) + PaddingOf(MetaJsonLength(m)) == 0x1_0000_0000;
    CrcOfNothing(acc);
  }

  // ----- The accumulator over several checks -----

  ghost predicate AllCheckable(ms: seq<seq<bv8>>) {
    forall i | 0 <= i < |ms| :: Checkable(ms[i])
  }

  // The accumulator after checks of the upload areas `ms`, one after the other.
  function CheckedAll(ms: seq<seq<bv8>>, acc: bv32): (c: bv32)
    requires AllCheckable(ms)
    decreases ms
  {
    if ms == [] then acc else CheckedAll(ms[1..], CheckedCrc(ms[0], acc))
  }

  // The payloads whose CRC those checks computed, end to end.
  function Payloads(ms: seq<seq<bv8>>): (s: seq<bv8>)
    requires AllCheckable(ms)
  {
    if ms == [] then [] else (if LengthTooLong(ms[0]) then [] else PaddedPayload(ms[0])) + Payloads(ms[1..])
  }

  lemma {:induction false} ChecksAccumulate(ms: seq<seq<bv8>>, acc: bv32)
    requires AllCheckable(ms)
    ensures CheckedAll(ms, acc) == Crc(acc, Payloads(ms))
    decreases ms
  {
    hide PaddedPayload, LengthTooLong, Crc;
    CrcOfNothing(acc);
    if ms != [] {
      var first := if LengthTooLong(ms[0]) then [] else PaddedPayload(ms[0]);
      ChecksAccumulate(ms[1..], CheckedCrc(ms[0], acc));
      Streaming(acc, first, Payloads(ms[1..]));
    }
  }

  // After any sequence of checks since boot, a genuine image is accepted exactly when all the
  // payloads read so far, end to end, happen to have CRC zero.
  lemma AfterChecks(ms: seq<seq<bv8>>, m: seq<bv8>, config: seq<bv8>)
    requires AllCheckable(ms) && HoldsImage(m, config)
    ensures PayloadInFlash(m)
    ensures CheckResult(m, CheckedAll(ms, 0)) == 1 <==> Crc(0, Payloads(ms)) == 0
  {
    ChecksAccumulate(ms, 0);
    GenuineAcceptedIff(m, config, CheckedAll(ms, 0));
  }

  // Flash that holds `image` in the upload area and nothing else.
  function FlashWith(image: seq<bv8>): (m: seq<bv8>)
    requires |image| <= STORAGE - UPLOAD
    ensures |m| == FLASH_SIZE
    ensures m[UPLOAD..UPLOAD + |image|] == image
  {
    Blank(UPLOAD) + image + Blank(FLASH_SIZE - UPLOAD - |image|)
  }

  // Twelve bytes of metadata that promise 2^32 - 1 bytes under a CRC of zero.
  function EmptyPromise(): (head: seq<bv8>)
    ensures |head| == 12
    ensures head[0..4] == WordBytes(0) && head[4..8] == Bytes32(1) && head[8..12] == Bytes32(0xFFFF_FFFF)
  {
    hide WordBytes, Bytes32;
    WordBytes(0) + Bytes32(1) + Bytes32(0xFFFF_FFFF)
  }

  // It does happen: those bytes alone, no upload at all, are accepted at the first check.
  lemma NothingAccepted() returns (m: seq<bv8>)
    ensures Checkable(m) && PayloadInFlash(m) && PaddedPayload(m) == [] && CheckResult(m, 0) == 1
  {
    hide WordBytes, WordValue, Bytes32, Value32, EmptyPromise, FlashWith;
    m := FlashWith(EmptyPromise());
    SubSlice(m, UPLOAD, EmptyPromise(), 0, 4);
    SubSlice(m, UPLOAD, EmptyPromise(), 4, 8);
    SubSlice(m, UPLOAD, EmptyPromise(), 8, 12);
    WordValueOfBytes(0);
    Value32OfBytes32(1);
    Value32OfBytes32(0xFFFF_FFFF);
    hide PayloadInFlash, PaddedPayload, CheckResult;
    WrappedLength(m, 0);
  }

  // ----- moveJson -----

  // The two contents agree on the first n cells.
  ghost predicate Agree(a: seq<bv8>, b: seq<bv8>, n: nat) {
    |a| == |b| == FLASH_SIZE && n <= FLASH_SIZE && a[..n] == b[..n]
  }

  lemma AgreeTrans(a: seq<bv8>, b: seq<bv8>, c: seq<bv8>, n: nat, k: nat)
    requires Agree(a, b, n) && Agree(b, c, k)
    ensures Agree(a, c, if n <= k then n else k)
  {
    var l := if n <= k then n else k;
    forall i | 0 <= i < l ensures a[..l][i] == c[..l][i] {
      assert a[..n][i] == b[..n][i] && b[..k][i] == c[..k][i];
    }
  }

  lemma AgreeSlice(a: seq<bv8>, b: seq<bv8>, n: nat, lo: nat, hi: nat)
    requires Agree(a, b, n) && lo <= hi <= n
    ensures a[lo..hi] == b[lo..hi]
  {
    SubSlice(a, 0, b[..n], lo, hi);
  }

  // The storage area holds the length word and the first i bytes of the file; the rest is blank.
  ghost predicate HasCopied(r: seq<bv8>, config: seq<bv8>, i: nat) {
    && |r| == FLASH_SIZE && i <= |config| <= STORAGE - PAYLOAD
    && r[STORAGE..STORAGE + 4] == Bytes32(|config|)
    && r[STORAGE + 4..STORAGE + 4 + i] == config[..i]
    && IsBlank(r, STORAGE + 4 + i, FLASH_SIZE)
  }

  // One turn of the copy loop.
  lemma CopyOne(m: seq<bv8>, i: nat, n: nat)
    requires |m| == FLASH_SIZE && i < n && PAYLOAD + n <= STORAGE
    requires IsBlank(m, STORAGE + 4 + i, STORAGE + 4 + n)
    ensures var at, b := STORAGE + 4 + i, m[PAYLOAD + i];
            var p := Program(m, at, [b]);
            && p[..at + 1] == m[..at] + [b]
            && p[PAYLOAD + i + 1..PAYLOAD + n] == m[PAYLOAD + i + 1..PAYLOAD + n]
            && p[STORAGE + 4 + n..] == m[STORAGE + 4 + n..]
            && IsBlank(p, at + 1, STORAGE + 4 + n)
  {
    var at, b := STORAGE + 4 + i, m[PAYLOAD + i];
    ProgramBlank(m, at, [b]);
    assert Program(m, at, [b]) == m[at := b];
  }

  lemma Regroup(l: seq<bv8>, b: bv8, t: seq<bv8>, r: seq<bv8>)
    ensures (l + [b]) + t + r == l + ([b] + t) + r
  {
  }

  // On blank storage the copy loop stores the bytes it reads and touches nothing else.
  lemma {:induction false} CopyStores(m: seq<bv8>, i: nat, n: nat)
    requires |m| == FLASH_SIZE && i <= n && PAYLOAD + n <= STORAGE
    requires IsBlank(m, STORAGE + 4 + i, STORAGE + 4 + n)
    ensures CopyFrom(m, i, n) == m[..STORAGE + 4 + i] + m[PAYLOAD + i..PAYLOAD + n] + m[STORAGE + 4 + n..]
    decreases n - i
  {
    var at := STORAGE + 4 + i;
    if i == n {
      assert m == m[..at] + [] + m[at..];
    } else {
      var b := m[PAYLOAD + i];
      var t := m[PAYLOAD + i + 1..PAYLOAD + n];
      CopyOne(m, i, n);
      assert m[PAYLOAD + i..PAYLOAD + n] == [b] + t;
      hide Program, IsBlank;
      CopyStores(Program(m, at, [b]), i + 1, n);
      Regroup(m[..at], b, t, m[STORAGE + 4 + n..]);
    }
  }

  // Before anything is written the storage length word is blank, which means "no file";
  // a length that fits never reads as that marker.
  lemma BlankMeansDefault(m: seq<bv8>, defaultConfig: seq<bv8>)
    requires |m| == FLASH_SIZE && IsBlank(m, STORAGE, STORAGE + 4)
    ensures StoredInFlash(m) && BootConfig(m, defaultConfig) == defaultConfig
  {
    assert m[STORAGE..STORAGE + 4] == [0xFF, 0xFF, 0xFF, 0xFF];
    AllOnesValue(m[STORAGE..STORAGE + 4]);
  }

  lemma WithLengthParts(m: seq<bv8>, config: seq<bv8>)
    requires |m| == FLASH_SIZE && |config| <= STORAGE - PAYLOAD && ShortLength(m) == |config|
    ensures Agree(WithLength(m), m, STORAGE)
    ensures HasCopied(WithLength(m), config, 0)
  {
    var e := EraseSector(m, GetSector(JSON_STORAGE_ADDRESS));
    hide Bytes32;
    BlankAfterErase(m);
    ProgramBlank(e, STORAGE, Bytes32(ShortLength(m)));
    BlankBeyond(e, STORAGE, Bytes32(ShortLength(m)));
  }

  // The move when the power fails after the length word and i bytes: those bytes are the
  // file's, the rest are still blank.
  function MovedSoFar(m: seq<bv8>, i: nat): (r: seq<bv8>)
    requires |m| == FLASH_SIZE && i <= 0xFFFF
    ensures |r| == FLASH_SIZE
  {
    CopyFrom(WithLength(m), 0, i)
  }

  lemma Splice(w: seq<bv8>, at: nat, data: seq<bv8>, lo: nat, hi: nat)
    requires lo <= hi <= at && at + |data| <= |w|
    ensures var r := w[..at] + data + w[at + |data|..];
            && r[lo..hi] == w[lo..hi]
            && r[at..at + |data|] == data
            && (IsBlank(w, at, |w|) ==> IsBlank(r, at + |data|, |w|))
  {
  }

  lemma SpliceCopy(w: seq<bv8>, config: seq<bv8>, i: nat)
    requires HasCopied(w, config, 0) && i <= |config|
    ensures var r := w[..STORAGE + 4] + config[..i] + w[STORAGE + 4 + i..];
            HasCopied(r, config, i) && Agree(r, w, STORAGE)
  {
    hide Bytes32;
    Splice(w, STORAGE + 4, config[..i], 0, STORAGE);
    Splice(w, STORAGE + 4, config[..i], STORAGE, STORAGE + 4);
  }

  lemma CopiedParts(w: seq<bv8>, config: seq<bv8>, i: nat)
    requires HasCopied(w, config, 0) && i <= |config| && w[PAYLOAD..PAYLOAD + i] == config[..i]
    ensures HasCopied(CopyFrom(w, 0, i), config, i) && Agree(CopyFrom(w, 0, i), w, STORAGE)
  {
    CopyStores(w, 0, i);
    hide CopyFrom, HasCopied, Agree;
    SpliceCopy(w, config, i);
  }

  lemma PayloadStays(m: seq<bv8>, w: seq<bv8>, config: seq<bv8>, i: nat)
    requires Agree(w, m, STORAGE) && i <= |config| && PAYLOAD + |config| <= STORAGE
    requires m[PAYLOAD..PAYLOAD + |config|] == config
    ensures w[PAYLOAD..PAYLOAD + i] == config[..i]
  {
    AgreeSlice(w, m, STORAGE, PAYLOAD, PAYLOAD + i);
    SubSlice(m, PAYLOAD, config, 0, i);
  }

  lemma SmallMod(n: nat)
    requires n <= 0xFFFF
    ensures n % 0x1_0000 == n
  {
  }

  lemma ShortLengthExact(m: seq<bv8>, config: seq<bv8>)
    requires HoldsImage(m, config)
    ensures |config| <= STORAGE - PAYLOAD && ShortLength(m) == |config|
    ensures m[PAYLOAD..PAYLOAD + |config|] == config
  {
    ImageReadsBack(m, config);
    hide MetaJsonLength, PayloadInFlash, PaddedPayload, Image, Crc, PadToWord, MetaCrc, MetaLength;
    SmallMod(|config|);
  }

  lemma MovedSoFarParts(m: seq<bv8>, config: seq<bv8>, i: nat)
    requires HoldsImage(m, config) && i <= |config|
    ensures ShortLength(m) == |config|
    ensures Agree(MovedSoFar(m, i), m, STORAGE) && HasCopied(MovedSoFar(m, i), config, i)
  {
    var w := WithLength(m);
    ShortLengthExact(m, config);
    WithLengthParts(m, config);
    PayloadStays(m, w, config, i);
    CopiedParts(w, config, i);
    AgreeTrans(MovedSoFar(m, i), w, m, STORAGE, STORAGE);
  }

  // ----- What a boot finds, at every moment of an update -----

  lemma BlankSlice(r: seq<bv8>, lo: nat, hi: nat)
    requires |r| == FLASH_SIZE && lo <= hi <= FLASH_SIZE && IsBlank(r, lo, FLASH_SIZE)
    ensures r[lo..hi] == Blank(hi - lo)
  {
  }

  // Power lost after i of the n bytes: the boot takes the full length from the length word
  // and gets the first i bytes followed by n - i blank ones. With i == n this is the file.
  lemma BootDuringMove(m: seq<bv8>, config: seq<bv8>, i: nat, defaultConfig: seq<bv8>)
    requires HoldsImage(m, config) && i <= |config|
    ensures var r := MovedSoFar(m, i);
            && StoredLength(r) == |config| != EMPTY
            && StoredInFlash(r)
            && BootConfig(r, defaultConfig) == config[..i] + Blank(|config| - i)
  {
    MovedSoFarParts(m, config, i);
    hide Bytes32, Value32, HoldsImage, MovedSoFar, IsBlank;
    Value32OfBytes32(|config|);
    var r := MovedSoFar(m, i);
    var n := |config|;
    BlankSlice(r, STORAGE + 4 + i, STORAGE + 4 + n);
    CutAt(r, STORAGE + 4, STORAGE + 4 + i, STORAGE + 4 + n);
  }

  lemma CutAt(r: seq<bv8>, lo: nat, mid: nat, hi: nat)
    requires lo <= mid <= hi <= |r|
    ensures r[lo..hi] == r[lo..mid] + r[mid..hi]
  {
  }

  // Power lost between the erase and the length word: the boot finds no file.
  lemma BootAfterErase(m: seq<bv8>, defaultConfig: seq<bv8>)
    requires |m| == FLASH_SIZE
    ensures var e := EraseSector(m, GetSector(JSON_STORAGE_ADDRESS));
            StoredInFlash(e) && BootConfig(e, defaultConfig) == defaultConfig
  {
    var e := EraseSector(m, GetSector(JSON_STORAGE_ADDRESS));
    BlankAfterErase(m);
    hide EraseSector;
    BlankPart(e, STORAGE, STORAGE + 4);
    BlankMeansDefault(e, defaultConfig);
  }

  // An interrupted move boots the intended file exactly when what is missing is all ones.
  lemma TornMoveExact(m: seq<bv8>, config: seq<bv8>, i: nat, defaultConfig: seq<bv8>)
    requires HoldsImage(m, config) && i <= |config|
    ensures StoredInFlash(MovedSoFar(m, i))
    ensures BootConfig(MovedSoFar(m, i), defaultConfig) == config <==> config[i..] == Blank(|config| - i)
  {
    BootDuringMove(m, config, i, defaultConfig);
    hide BootConfig, MovedSoFar, HoldsImage;
    assert config == config[..i] + config[i..];
    assert (config[..i] + Blank(|config| - i))[i..] == Blank(|config| - i);
  }

  // It does happen: without its last byte, a file that does not end in 0xFF is not what boots.
  lemma TornMoveBootsWrong(config: seq<bv8>, defaultConfig: seq<bv8>) returns (m: seq<bv8>)
    requires ConfigFits(config) && config != [] && config[|config| - 1] != 0xFF
    ensures HoldsImage(m, config)
    ensures StoredInFlash(MovedSoFar(m, |config| - 1))
    ensures BootConfig(MovedSoFar(m, |config| - 1), defaultConfig) != config
  {
    ImageFits(config);
    hide Image, FlashWith, MovedSoFar, BootConfig;
    m := FlashWith(Image(config));
    var i := |config| - 1;
    TornMoveExact(m, config, i, defaultConfig);
    assert config[i..][0] == config[i];
  }

  // From the write request to the move, whatever arrives, a boot runs the default file:
  // the request has already erased the stored one.
  lemma BootDuringUpload(file: seq<bv8>, cells: seq<bv8>, run: seq<System>, steps: seq<Step>, i: nat,
                         defaultConfig: seq<bv8>)
    requires |cells| == FLASH_SIZE && Fits(file) && IsRun(file, cells, run, steps) && i < |run|
    requires run[i].requested
    ensures StoredInFlash(run[i].server.cells)
    ensures BootConfig(run[i].server.cells, defaultConfig) == defaultConfig
  {
    UploadIsLockStep(file, cells, run, steps, i);
    var k := run[i].server.block;
    WrittenFits(file, k);
    StorageErased(cells, Written(file, k));
    BlankMeansDefault(run[i].server.cells, defaultConfig);
  }

  lemma StorageErased(cells: seq<bv8>, data: seq<bv8>)
    requires |cells| == FLASH_SIZE && |data| <= STORAGE - UPLOAD
    ensures IsBlank(Program(EraseSector(cells, JSON_SECTOR), UPLOAD, data), STORAGE, STORAGE + 4)
  {
  }

  // ----- The whole cycle -----

  lemma ImageFits(config: seq<bv8>)
    requires ConfigFits(config)
    ensures Fits(Image(config))
  {
    hide Image, PaddingOf;
  }

  lemma BlankAfterRequest(cells: seq<bv8>, lo: nat, hi: nat)
    requires |cells| == FLASH_SIZE && hi <= STORAGE && IsBlank(cells, lo, hi)
    ensures IsBlank(EraseSector(cells, JSON_SECTOR), lo, hi)
  {
  }

  // Flash discipline: with a blank upload area, the cells that the next block is to be
  // programmed into lie in that area and are blank, so no cell is programmed twice.
  lemma ProgramsBlankCells(file: seq<bv8>, cells: seq<bv8>, run: seq<System>, steps: seq<Step>, i: nat)
    requires |cells| == FLASH_SIZE && Fits(file) && IsBlank(cells, UPLOAD, STORAGE)
    requires IsRun(file, cells, run, steps) && i < |run| && run[i].requested && run[i].server.open
    ensures var v := run[i].server;
            && v.block < LastBlock(file)
            && (BlockData(file, v.block + 1) != [] ==>
                 && FLASH_BASE + UPLOAD <= v.writeAddress <= FLASH_BASE + STORAGE - 512
                 && IsBlank(v.cells, v.writeAddress - FLASH_BASE, v.writeAddress - FLASH_BASE + 512))
  {
    RunKeepsInv(file, cells, run, steps, i);
    var k := run[i].server.block;
    WrittenFits(file, k);
    BlankAfterRequest(cells, UPLOAD, STORAGE);
    hide IsRun, Written, BlockData;
    if BlockData(file, k + 1) != [] {
      BeyondStaysBlank(EraseSector(cells, JSON_SECTOR), Written(file, k));
    }
  }

  lemma BeyondStaysBlank(m: seq<bv8>, data: seq<bv8>)
    requires |m| == FLASH_SIZE && IsBlank(m, UPLOAD, STORAGE) && UPLOAD + |data| + 512 <= STORAGE
    ensures IsBlank(Program(m, UPLOAD, data), UPLOAD + |data|, UPLOAD + |data| + 512)
  {
    hide AndBytes;
  }

  // Cell by cell, after a finished session on a blank upload area: the file, zeros up to the
  // end of the last block, blank cells.
  lemma FinishedCells(file: seq<bv8>, cells: seq<bv8>, run: seq<System>, steps: seq<Step>, i: nat, a: nat)
    requires |cells| == FLASH_SIZE && Fits(file) && IsBlank(cells, UPLOAD, STORAGE) && a < STORAGE - UPLOAD
    requires IsRun(file, cells, run, steps) && i < |run| && run[i].server.newJson
    ensures |run[i].server.cells| == FLASH_SIZE
    ensures run[i].server.cells[UPLOAD + a]
         == if a < |file| then file[a] else if a < (|file| + 511) / 512 * 512 then 0 else 0xFF
  {
    UploadIsLockStep(file, cells, run, steps, i);
    hide IsRun;
    var blocks := PadToBlocks(file);
    ErasedCells(cells, JSON_SECTOR, UPLOAD + a);
    ProgramAtIndex(EraseSector(cells, JSON_SECTOR), UPLOAD, blocks, UPLOAD + a);
    if a < |blocks| {
      AndOnes(blocks[a]);
      assert a < |file| ==> blocks[a] == blocks[..|file|][a];
    }
  }

  // A finished session on a blank upload area leaves the image there.
  lemma SessionDelivers(config: seq<bv8>, cells: seq<bv8>, run: seq<System>, steps: seq<Step>, i: nat)
    requires ConfigFits(config) && |cells| == FLASH_SIZE && IsBlank(cells, UPLOAD, STORAGE)
    requires IsRun(Image(config), cells, run, steps) && i < |run| && run[i].server.newJson
    ensures HoldsImage(run[i].server.cells, config)
    ensures Agree(run[i].server.cells, cells, UPLOAD)
  {
    var image := Image(config);
    var blocks := PadToBlocks(image);
    var e := EraseSector(cells, JSON_SECTOR);
    ImageFits(config);
    UploadIsLockStep(image, cells, run, steps, i);
    hide IsRun, Image, PadToBlocks;
    BlankAfterRequest(cells, UPLOAD, STORAGE);
    BlankWithin(e, UPLOAD, UPLOAD + |blocks|, STORAGE);
    ProgramBlank(e, UPLOAD, blocks);
    Splice(e, UPLOAD, blocks, 0, UPLOAD);
    EraseFrame(cells, JSON_SECTOR, 0, UPLOAD);
    SubSlice(run[i].server.cells, UPLOAD, blocks, 0, |image|);
  }

  lemma BlankWithin(m: seq<bv8>, lo: nat, hi: nat, end: nat)
    requires lo <= hi <= end <= |m| && IsBlank(m, lo, end)
    ensures IsBlank(m, lo, hi)
  {
  }

  // After the accepted image has been moved and the upload area cleared, the next boot loads
  // the file, the program sectors are untouched and the upload area is blank again.
  lemma CycleDelivers(m: seq<bv8>, config: seq<bv8>, defaultConfig: seq<bv8>)
    requires HoldsImage(m, config)
    ensures var after := EraseSector(Moved(m), 6);
            && StoredInFlash(after) && BootConfig(after, defaultConfig) == config
            && IsBlank(after, UPLOAD, STORAGE)
            && Agree(after, m, SectorStart(6))
  {
    MovedSoFarParts(m, config, |config|);
    BootDuringMove(m, config, |config|, defaultConfig);
    ClearedParts(MovedSoFar(m, |config|), m, |config|, defaultConfig);
    assert config[..|config|] + Blank(0) == config;
  }

  lemma ClearedParts(r: seq<bv8>, m: seq<bv8>, n: nat, defaultConfig: seq<bv8>)
    requires Agree(r, m, STORAGE)
    requires StoredInFlash(r) && StoredLength(r) == n != EMPTY
    ensures var after := EraseSector(r, 6);
            && StoredInFlash(after) && BootConfig(after, defaultConfig) == BootConfig(r, defaultConfig)
            && IsBlank(after, UPLOAD, STORAGE)
            && Agree(after, m, SectorStart(6))
  {
    hide Value32;
    var after := EraseSector(r, 6);
    EraseFrame(r, 6, STORAGE, STORAGE + 4);
    EraseFrame(r, 6, STORAGE + 4, STORAGE + 4 + n);
    EraseFrame(r, 6, 0, SectorStart(6));
    AgreeTrans(after, r, m, SectorStart(6), STORAGE);
  }

  // End to end: build the image, upload it over any network, let the main loop check it. It
  // is accepted exactly when the CRC accumulator is zero; once installed and rebooted, the
  // board loads exactly the file, and is ready for the next upload.
  lemma EndToEnd(config: seq<bv8>, cells: seq<bv8>, run: seq<System>, steps: seq<Step>, i: nat,
                 acc: bv32, defaultConfig: seq<bv8>)
    requires ConfigFits(config) && |cells| == FLASH_SIZE && IsBlank(cells, UPLOAD, STORAGE)
    requires IsRun(Image(config), cells, run, steps) && i < |run| && run[i].server.newJson
    ensures var m := run[i].server.cells;
            && PayloadInFlash(m) && (CheckResult(m, acc) == 1 <==> acc == 0)
            && var after := EraseSector(Moved(m), 6);
               && StoredInFlash(after) && BootConfig(after, defaultConfig) == config
               && IsBlank(after, UPLOAD, STORAGE)
               && Agree(after, cells, SectorStart(6))
  {
    SessionDelivers(config, cells, run, steps, i);
    var m := run[i].server.cells;
    GenuineAcceptedIff(m, config, acc);
    hide *;
    CycleDelivers(m, config, defaultConfig);
    AgreeTrans(EraseSector(Moved(m), 6), m, cells, SectorStart(6), UPLOAD);
  }
}
