/** One upload after another on a board that has not been restarted: Src/tftpserver.cpp and
    Src/remora.cpp. Nothing erases the upload area between them, and nothing resets the CRC
    accumulator. */
module Sessions {
  import opened Board
  import opened Config
  import opened Crc32
  import opened Crc32Theory
  import opened Delivery
  import opened Flash
  import opened LittleEndian
  import opened TftpProtocol
  import opened Uploader

  // ----- Sessions -----

  // An upload that ended, or was given up, after so many accepted blocks.
  datatype Attempt = Attempt(file: seq<bv8>, blocks: nat)

  // The last block raises newJson, and the main loop checks the upload area.
  predicate Finished(a: Attempt) {
    a.blocks == LastBlock(a.file)
  }

  function WholeFile(file: seq<bv8>): (a: Attempt)
    ensures Finished(a)
  {
    Attempt(file, LastBlock(file))
  }

  ghost predicate Possible(a: Attempt) {
    Fits(a.file) && a.blocks <= LastBlock(a.file)
  }

  // Over some run of the protocol, the attempt turns the flash `before` into `after`.
  ghost predicate Leaves(a: Attempt, before: seq<bv8>, after: seq<bv8>) {
    && |before| == FLASH_SIZE && Possible(a)
    && exists run: seq<System>, steps: seq<Step> ::
         && IsRun(a.file, before, run, steps) && run[|steps|].requested
         && run[|steps|].server.block == a.blocks && run[|steps|].server.cells == after
  }

  lemma LeavesWritten(a: Attempt, before: seq<bv8>, after: seq<bv8>)
    requires Leaves(a, before, after)
    ensures |after| == FLASH_SIZE && after == FlashAfter(a.file, before, a.blocks)
  {
    var run: seq<System>, steps: seq<Step> :|
                      IsRun(a.file, before, run, steps) && run[|steps|].requested
                      && run[|steps|].server.block == a.blocks && run[|steps|].server.cells == after;
    UploadIsLockStep(a.file, before, run, steps, |steps|);
  }

  // Every possible attempt has such a run.
  lemma AttemptRuns(a: Attempt, before: seq<bv8>) returns (after: seq<bv8>)
    requires |before| == FLASH_SIZE && Possible(a)
    ensures Leaves(a, before, after)
  {
    var run, steps := SomeRunAccepts(a.file, before, a.blocks);
    after := run[|steps|].server.cells;
  }

  // What the attempt programs into byte i of the upload area.
  function Programmed(a: Attempt, i: nat): (b: bv8)
    requires a.blocks <= LastBlock(a.file)
  {
    var w := Written(a.file, a.blocks);
    if i < |w| then w[i] else 0xFF
  }

  lemma AttemptByte(a: Attempt, before: seq<bv8>, after: seq<bv8>, i: nat)
    requires Leaves(a, before, after) && i < STORAGE - UPLOAD
    ensures |after| == FLASH_SIZE
    ensures after[UPLOAD + i] == before[UPLOAD + i] & Programmed(a, i)
  {
    LeavesWritten(a, before, after);
    hide Leaves, Program, EraseSector, Written;
    WrittenFits(a.file, a.blocks);
    ErasedCells(before, JSON_SECTOR, UPLOAD + i);
    ProgramAtIndex(EraseSector(before, JSON_SECTOR), UPLOAD, Written(a.file, a.blocks), UPLOAD + i);
    AllOnes(before[UPLOAD + i]);
  }

  lemma AllOnes(b: bv8)
    ensures b & 0xFF == b
  {
  }

  // ----- Histories -----

  // contents[k] is the flash before attempt k, and after the attempts before it.
  ghost predicate History(attempts: seq<Attempt>, contents: seq<seq<bv8>>) {
    && |contents| == |attempts| + 1 && |contents[0]| == FLASH_SIZE
    && forall k | 0 <= k < |attempts| :: Leaves(attempts[k], contents[k], contents[k + 1])
  }

  // The contents that were checked: those after finished attempts.
  function Checked(attempts: seq<Attempt>, contents: seq<seq<bv8>>): (ms: seq<seq<bv8>>)
    requires |contents| == |attempts| + 1
  {
    if attempts == [] then []
    else
      var n := |attempts| - 1;
      Checked(attempts[..n], contents[..n + 1]) + (if Finished(attempts[n]) then [contents[n + 1]] else [])
  }

  // No attempt has been accepted, which would have restarted the board.
  ghost predicate NoneAccepted(attempts: seq<Attempt>, contents: seq<seq<bv8>>)
    requires |contents| == |attempts| + 1
    decreases attempts
  {
    attempts == [] ||
    var n := |attempts| - 1;
    && NoneAccepted(attempts[..n], contents[..n + 1])
    && (Finished(attempts[n]) ==>
         && Checkable(contents[n + 1])
         && AllCheckable(Checked(attempts[..n], contents[..n + 1]))
         && CheckResult(contents[n + 1], CheckedAll(Checked(attempts[..n], contents[..n + 1]), 0)) == -1)
  }

  lemma {:induction false} CheckedInFlash(attempts: seq<Attempt>, contents: seq<seq<bv8>>)
    requires |contents| == |attempts| + 1 && NoneAccepted(attempts, contents)
    ensures AllCheckable(Checked(attempts, contents))
    decreases attempts
  {
    if attempts != [] {
      hide Checkable, CheckResult, CheckedAll;
      var n := |attempts| - 1;
      CheckedInFlash(attempts[..n], contents[..n + 1]);
    }
  }

  // The bits of byte i that no attempt has cleared.
  function Mask(attempts: seq<Attempt>, i: nat): (b: bv8)
    requires forall k | 0 <= k < |attempts| :: attempts[k].blocks <= LastBlock(attempts[k].file)
  {
    if attempts == [] then 0xFF
    else Mask(attempts[..|attempts| - 1], i) & Programmed(attempts[|attempts| - 1], i)
  }

  lemma HistoryIsPossible(attempts: seq<Attempt>, contents: seq<seq<bv8>>)
    requires History(attempts, contents)
    ensures forall k | 0 <= k < |attempts| :: attempts[k].blocks <= LastBlock(attempts[k].file)
    ensures |contents[|attempts|]| == FLASH_SIZE
  {
    hide IsRun;
    forall k | 0 <= k < |attempts| ensures attempts[k].blocks <= LastBlock(attempts[k].file) {
      assert Leaves(attempts[k], contents[k], contents[k + 1]);
    }
    if attempts != [] {
      var n := |attempts| - 1;
      assert Leaves(attempts[n], contents[n], contents[n + 1]);
      LeavesWritten(attempts[n], contents[n], contents[n + 1]);
    }
  }

  lemma HistoryFront(attempts: seq<Attempt>, contents: seq<seq<bv8>>)
    requires History(attempts, contents) && attempts != []
    ensures History(attempts[..|attempts| - 1], contents[..|attempts|])
    ensures Leaves(attempts[|attempts| - 1], contents[|attempts| - 1], contents[|attempts|])
  {
    hide Leaves;
  }

  // The upload area holds what every attempt so far has left of its first contents.
  lemma {:induction false} UploadArea(attempts: seq<Attempt>, contents: seq<seq<bv8>>, i: nat)
    requires History(attempts, contents) && i < STORAGE - UPLOAD
    ensures forall k | 0 <= k < |attempts| :: attempts[k].blocks <= LastBlock(attempts[k].file)
    ensures |contents[|attempts|]| == FLASH_SIZE
    ensures contents[|attempts|][UPLOAD + i] == contents[0][UPLOAD + i] & Mask(attempts, i)
    decreases attempts
  {
    HistoryIsPossible(attempts, contents);
    if attempts == [] {
      AllOnes(contents[0][UPLOAD + i]);
    } else {
      var n := |attempts| - 1;
      HistoryFront(attempts, contents);
      hide Leaves, History, Programmed;
      UploadArea(attempts[..n], contents[..n + 1], i);
      AttemptByte(attempts[n], contents[n], contents[n + 1], i);
      AndAssociates(contents[0][UPLOAD + i], Mask(attempts[..n], i), Programmed(attempts[n], i));
    }
  }

  lemma AndAssociates(a: bv8, b: bv8, c: bv8)
    ensures (a & b) & c == a & (b & c)
  {
  }

  // ----- The next genuine upload -----

  // Every bit the image needs was set at the beginning and has survived every attempt.
  ghost predicate BitsLeft(cells: seq<bv8>, attempts: seq<Attempt>, image: seq<bv8>)
    requires |cells| == FLASH_SIZE && |image| <= STORAGE - UPLOAD
    requires forall k | 0 <= k < |attempts| :: attempts[k].blocks <= LastBlock(attempts[k].file)
  {
    forall i | 0 <= i < |image| :: (cells[UPLOAD + i] & Mask(attempts, i)) & image[i] == image[i]
  }

  lemma StoredByte(file: seq<bv8>, before: seq<bv8>, after: seq<bv8>, i: nat)
    requires Leaves(WholeFile(file), before, after) && i < |file|
    ensures |after| == FLASH_SIZE && i < STORAGE - UPLOAD
    ensures after[UPLOAD + i] == before[UPLOAD + i] & file[i]
  {
    assert Fits(file);
    hide Leaves, FlashAfter;
    AttemptByte(WholeFile(file), before, after, i);
    WrittenAll(file);
    assert PadToBlocks(file)[i] == PadToBlocks(file)[..|file|][i];
  }

  lemma StoredExact(attempts: seq<Attempt>, contents: seq<seq<bv8>>, config: seq<bv8>, after: seq<bv8>)
    requires History(attempts, contents) && ConfigFits(config)
    requires Leaves(WholeFile(Image(config)), contents[|attempts|], after)
    ensures forall k | 0 <= k < |attempts| :: attempts[k].blocks <= LastBlock(attempts[k].file)
    ensures |Image(config)| <= STORAGE - UPLOAD && |after| == FLASH_SIZE
    ensures HoldsImage(after, config) <==> BitsLeft(contents[0], attempts, Image(config))
  {
    HistoryIsPossible(attempts, contents);
    ImageFits(config);
    var image := Image(config);
    LeavesWritten(WholeFile(image), contents[|attempts|], after);
    hide Leaves, History, Image, Mask, FlashAfter, BitsLeft, HoldsImage;
    forall i | 0 <= i < |image|
      ensures after[UPLOAD + i] == (contents[0][UPLOAD + i] & Mask(attempts, i)) & image[i]
    {
      StoredByte(image, contents[|attempts|], after, i);
      UploadArea(attempts, contents, i);
    }
    HeldIfBitsLeft(contents[0], attempts, config, after);
  }

  lemma HeldIfBitsLeft(cells: seq<bv8>, attempts: seq<Attempt>, config: seq<bv8>, after: seq<bv8>)
    requires forall k | 0 <= k < |attempts| :: attempts[k].blocks <= LastBlock(attempts[k].file)
    requires |cells| == |after| == FLASH_SIZE && ConfigFits(config) && |Image(config)| <= STORAGE - UPLOAD
    requires forall i | 0 <= i < |Image(config)| ::
               after[UPLOAD + i] == (cells[UPLOAD + i] & Mask(attempts, i)) & Image(config)[i]
    ensures HoldsImage(after, config) <==> BitsLeft(cells, attempts, Image(config))
  {
    hide Image, Mask;
    var image := Image(config);
    var held := after[UPLOAD..UPLOAD + |image|];
    assert forall i | 0 <= i < |image| :: held[i] == after[UPLOAD + i];
  }

  // After any sequence of uploads since boot, finished or given up, none of them accepted:
  // the next finished upload of a configuration leaves its image in flash if and only if no
  // bit it needs has been cleared, and the board then accepts it if and only if the payloads
  // checked so far have together CRC zero.
  lemma NextUpload(attempts: seq<Attempt>, contents: seq<seq<bv8>>, config: seq<bv8>, after: seq<bv8>)
    requires History(attempts, contents) && NoneAccepted(attempts, contents) && ConfigFits(config)
    requires Leaves(WholeFile(Image(config)), contents[|attempts|], after)
    ensures forall k | 0 <= k < |attempts| :: attempts[k].blocks <= LastBlock(attempts[k].file)
    ensures |Image(config)| <= STORAGE - UPLOAD
    ensures HoldsImage(after, config) <==> BitsLeft(contents[0], attempts, Image(config))
    ensures AllCheckable(Checked(attempts, contents))
    ensures HoldsImage(after, config) ==>
              && PayloadInFlash(after)
              && (CheckResult(after, CheckedAll(Checked(attempts, contents), 0)) == 1
                  <==> Crc(0, Payloads(Checked(attempts, contents))) == 0)
  {
    CheckedInFlash(attempts, contents);
    StoredExact(attempts, contents, config, after);
    hide History, NoneAccepted, Leaves, HoldsImage, BitsLeft, Image, CheckedAll, Payloads, PayloadInFlash;
    if HoldsImage(after, config) {
      AfterChecks(Checked(attempts, contents), after, config);
    }
  }

  // ----- It does happen -----

  // The image of a file, its CRC word damaged on the way.
  function WithCrcWord(word: bv32, config: seq<bv8>): (image: seq<bv8>)
    ensures |image| == |Image(config)|
  {
    WordBytes(word) + Image(config)[4..]
  }

  lemma DamagedParts(word: bv32, config: seq<bv8>)
    ensures var bad := WithCrcWord(word, config);
            && bad[0..4] == WordBytes(word)
            && bad[4..8] == Bytes32((|config| + 3) / 4)
            && bad[8..12] == Bytes32(|config|)
            && bad[512..|bad|] == PadToWord(config)
  {
    ImageParts(config);
    hide WordBytes, Bytes32, PadToWord, Image;
    var image, bad := Image(config), WithCrcWord(word, config);
    assert forall i | 4 <= i < |bad| :: bad[i] == image[i];
    assert bad[4..8] == image[4..8] && bad[8..12] == image[8..12] && bad[512..|bad|] == image[512..|image|];
  }

  ghost predicate HoldsDamaged(m: seq<bv8>, word: bv32, config: seq<bv8>) {
    && |m| == FLASH_SIZE && ConfigFits(config)
    && UPLOAD + |Image(config)| <= FLASH_SIZE
    && m[UPLOAD..UPLOAD + |Image(config)|] == WithCrcWord(word, config)
  }

  // Everything but the CRC word reads as in the genuine image.
  lemma DamagedReads(m: seq<bv8>, word: bv32, config: seq<bv8>)
    requires HoldsDamaged(m, word, config)
    ensures MetaCrc(m) == word && MetaLength(m) == (|config| + 3) / 4
    ensures PayloadInFlash(m) && PaddedPayload(m) == PadToWord(config)
  {
    var bad := WithCrcWord(word, config);
    DamagedParts(word, config);
    hide WithCrcWord, Image, WordBytes, WordValue, Bytes32, Value32, PadToWord;
    SubSlice(m, UPLOAD, bad, 0, 4);
    SubSlice(m, UPLOAD, bad, 4, 8);
    SubSlice(m, UPLOAD, bad, 8, 12);
    SubSlice(m, UPLOAD, bad, 512, |bad|);
    WordValueOfBytes(word);
    Value32OfBytes32((|config| + 3) / 4);
    Value32OfBytes32(|config|);
  }

  // On blank cells the damaged image is stored as it is.
  lemma DamagedIsStored(word: bv32, config: seq<bv8>, cells: seq<bv8>) returns (after: seq<bv8>)
    requires |cells| == FLASH_SIZE && ConfigFits(config) && IsBlank(cells, UPLOAD, STORAGE)
    ensures Leaves(WholeFile(WithCrcWord(word, config)), cells, after)
    ensures HoldsDamaged(after, word, config)
  {
    ImageFits(config);
    var bad := WithCrcWord(word, config);
    hide WithCrcWord, Image, Leaves;
    after := AttemptRuns(WholeFile(bad), cells);
    LeavesWritten(WholeFile(bad), cells, after);
    forall i | 0 <= i < |bad| ensures after[UPLOAD..UPLOAD + |bad|][i] == bad[i] {
      StoredByte(bad, cells, after, i);
      AndOnes(bad[i]);
    }
  }

  // One finished attempt that the check rejects.
  ghost predicate RejectedOnce(a: Attempt, before: seq<bv8>, after: seq<bv8>) {
    History([a], [before, after]) && NoneAccepted([a], [before, after]) && Checked([a], [before, after]) == [after]
  }

  lemma OneRejection(a: Attempt, before: seq<bv8>, after: seq<bv8>)
    requires Leaves(a, before, after) && Finished(a) && Checkable(after) && CheckResult(after, 0) == -1
    ensures RejectedOnce(a, before, after)
  {
    assert |before| == FLASH_SIZE;
    hide Leaves, Checkable, CheckResult;
    var attempts, contents := [a], [before, after];
    assert attempts[..0] == [] && contents[..1] == [before];
    assert Checked(attempts[..0], contents[..1]) == [] && NoneAccepted(attempts[..0], contents[..1]);
    assert CheckedAll([], 0) == 0;
    assert History(attempts, contents);
    assert NoneAccepted(attempts, contents);
    assert Checked(attempts, contents) == [] + [after];
  }

  lemma DamagedRejected(word: bv32, config: seq<bv8>, cells: seq<bv8>) returns (after: seq<bv8>)
    requires |cells| == FLASH_SIZE && ConfigFits(config) && IsBlank(cells, UPLOAD, STORAGE)
    requires Crc(0, PadToWord(config)) != word
    ensures RejectedOnce(WholeFile(WithCrcWord(word, config)), cells, after)
    ensures HoldsDamaged(after, word, config)
    ensures PayloadInFlash(after) && CheckedAll([after], 0) == Crc(0, PadToWord(config))
  {
    after := DamagedIsStored(word, config, cells);
    DamagedReads(after, word, config);
    hide Leaves, HoldsDamaged, WithCrcWord, Crc, MetaCrc, MetaLength, PaddedPayload, PadToWord;
    OneRejection(WholeFile(WithCrcWord(word, config)), cells, after);
    assert [after][1..] == [];
    assert CheckedAll([after], 0) == CheckedAll([], CheckedCrc(after, 0));
  }

  lemma OnesWord()
    ensures WordBytes(0xFFFFFFFF) == [0xFF, 0xFF, 0xFF, 0xFF]
    ensures WordBytes(0) == [0, 0, 0, 0]
  {
  }

  // There are files whose CRC is neither: three that differ in two bits have three CRCs.
  lemma OrdinaryFile() returns (config: seq<bv8>)
    ensures ConfigFits(config)
    ensures Crc(0, PadToWord(config)) != 0 && Crc(0, PadToWord(config)) != 0xFFFFFFFF
  {
    var a: seq<bv8>, b: seq<bv8>, c: seq<bv8> := [0, 0, 0, 0], [1, 0, 0, 0], [2, 0, 0, 0];
    assert PadToWord(a) == a && PadToWord(b) == b && PadToWord(c) == c;
    hide Crc, PadToWord, MessageBits;
    assert a[0] != b[0] && a[0] != c[0] && b[0] != c[0];
    BurstDetected(0, a, b, 0);
    BurstDetected(0, a, c, 0);
    BurstDetected(0, b, c, 0);
    config := if Crc(0, a) != 0 && Crc(0, a) != 0xFFFFFFFF then a
              else if Crc(0, b) != 0 && Crc(0, b) != 0xFFFFFFFF then b else c;
  }

  // Two uploads in a row to a board with a blank upload area. In the first the CRC word
  // arrives as ones; it is rejected. The second is genuine, is stored exactly, would have
  // been accepted at the first check since boot, and is rejected.
  lemma GenuineRejected(config: seq<bv8>, cells: seq<bv8>) returns (first: seq<bv8>, second: seq<bv8>)
    requires |cells| == FLASH_SIZE && ConfigFits(config) && IsBlank(cells, UPLOAD, STORAGE)
    requires Crc(0, PadToWord(config)) != 0 && Crc(0, PadToWord(config)) != 0xFFFFFFFF
    ensures RejectedOnce(WholeFile(WithCrcWord(0xFFFFFFFF, config)), cells, first)
    ensures Leaves(WholeFile(Image(config)), first, second)
    ensures HoldsImage(second, config) && PayloadInFlash(second) && PayloadInFlash(first)
    ensures CheckResult(second, CheckedAll([first], 0)) == -1
    ensures CheckResult(second, 0) == 1
  {
    first := DamagedRejected(0xFFFFFFFF, config, cells);
    second := GenuineOver(config, first);
    hide RejectedOnce, Leaves, HoldsDamaged, HoldsImage, Image, Crc, CheckedAll;
    GenuineAcceptedIff(second, config, 0);
    GenuineAcceptedIff(second, config, CheckedAll([first], 0));
  }

  lemma GenuineOver(config: seq<bv8>, first: seq<bv8>) returns (second: seq<bv8>)
    requires HoldsDamaged(first, 0xFFFFFFFF, config)
    ensures Leaves(WholeFile(Image(config)), first, second) && HoldsImage(second, config)
  {
    ImageFits(config);
    var image := Image(config);
    hide Image, WithCrcWord, Leaves, WordBytes;
    second := AttemptRuns(WholeFile(image), first);
    LeavesWritten(WholeFile(image), first, second);
    forall i | 0 <= i < |image| ensures second[UPLOAD..UPLOAD + |image|][i] == image[i] {
      RestoredByte(config, first, second, i);
    }
  }

  lemma RestoredByte(config: seq<bv8>, first: seq<bv8>, second: seq<bv8>, i: nat)
    requires HoldsDamaged(first, 0xFFFFFFFF, config) && i < |Image(config)|
    requires Leaves(WholeFile(Image(config)), first, second)
    ensures |second| == FLASH_SIZE && second[UPLOAD + i] == Image(config)[i]
  {
    var image, bad := Image(config), WithCrcWord(0xFFFFFFFF, config);
    OnesWord();
    assert bad[i] == if i < 4 then 0xFF else image[i];
    hide Image, WithCrcWord, Leaves, WordBytes;
    StoredByte(image, first, second, i);
    assert first[UPLOAD + i] == first[UPLOAD..UPLOAD + |image|][i] == bad[i];
    AndOnes(image[i]);
    AndSelf(image[i]);
  }

  lemma AndSelf(b: bv8)
    ensures b & b == b
  {
  }

  // And if the CRC word of the first upload arrives as zeros, no later upload of the file
  // can be stored: its CRC word has no bit left.
  lemma GenuineLost(config: seq<bv8>, cells: seq<bv8>) returns (first: seq<bv8>)
    requires |cells| == FLASH_SIZE && ConfigFits(config) && IsBlank(cells, UPLOAD, STORAGE)
    requires Crc(0, PadToWord(config)) != 0
    ensures RejectedOnce(WholeFile(WithCrcWord(0, config)), cells, first)
    ensures forall second | Leaves(WholeFile(Image(config)), first, second) :: !HoldsImage(second, config)
  {
    first := DamagedRejected(0, config, cells);
    hide RejectedOnce, Leaves, HoldsImage, HoldsDamaged, Image, WithCrcWord;
    forall second | Leaves(WholeFile(Image(config)), first, second)
      ensures !HoldsImage(second, config)
    {
      NotOver(config, first, second);
    }
  }

  lemma ZeroedByte(config: seq<bv8>) returns (i: nat)
    requires Crc(0, PadToWord(config)) != 0
    ensures i < 4 && Image(config)[i] != 0 && WithCrcWord(0, config)[i] == 0
  {
    var crc, head := Crc(0, PadToWord(config)), Image(config)[0..4];
    OnesWord();
    ImageParts(config);
    DamagedParts(0, config);
    WordValueOfBytes(crc);
    WordValueOfBytes(0);
    hide Image, WithCrcWord, WordBytes, WordValue, Crc, PadToWord;
    assert head == [head[0], head[1], head[2], head[3]];
    i := if head[0] != 0 then 0 else if head[1] != 0 then 1 else if head[2] != 0 then 2 else 3;
    assert WithCrcWord(0, config)[0..4][i] == 0;
  }

  lemma NotOver(config: seq<bv8>, first: seq<bv8>, second: seq<bv8>)
    requires HoldsDamaged(first, 0, config) && Crc(0, PadToWord(config)) != 0
    requires Leaves(WholeFile(Image(config)), first, second)
    ensures !HoldsImage(second, config)
  {
    var image, bad := Image(config), WithCrcWord(0, config);
    var i := ZeroedByte(config);
    hide Image, WithCrcWord, Leaves, Crc;
    StoredByte(image, first, second, i);
    assert first[UPLOAD + i] == first[UPLOAD..UPLOAD + |image|][i] == bad[i];
    assert second[UPLOAD + i] == 0;
    ImageFits(config);
    assert second[UPLOAD..UPLOAD + |image|][i] == second[UPLOAD + i];
  }
}
