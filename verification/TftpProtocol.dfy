/** An upload session: a lock-step client, the receiver of module Tftp, and a network
    that loses, duplicates and reorders packets. */
module TftpProtocol {
  import opened Flash
  import opened LittleEndian
  import opened Tftp
  import opened Uploader

  // ----- The client's side: section 2 of RFC 1350 -----

  function Min(a: nat, b: nat): (r: nat) {
    if a <= b then a else b
  }

  // The number of the last block, the only one with fewer than 512 bytes (possibly none).
  function LastBlock(file: seq<bv8>): (r: nat) {
    |file| / 512 + 1
  }

  function BlockData(file: seq<bv8>, k: nat): (data: seq<bv8>)
    requires 1 <= k <= LastBlock(file)
    ensures |data| <= 512
    ensures |data| < 512 <==> k == LastBlock(file)
  {
    file[512 * (k - 1)..Min(512 * k, |file|)]
  }

  lemma BlockLength(file: seq<bv8>, k: nat)
    requires 1 <= k <= LastBlock(file)
    ensures |BlockData(file, k)| == Min(512 * k, |file|) - Min(512 * (k - 1), |file|)
  {
  }

  function Block(file: seq<bv8>, k: nat): (r: seq<bv8>)
    requires 1 <= k <= LastBlock(file)
  {
    DataPacket(k, BlockData(file, k))
  }

  // The client waits for the acknowledgement of block `current`; block 0 is the request.
  datatype Client = Client(current: nat, done: bool)

  function ClientReceive(file: seq<bv8>, c: Client, pkt: seq<bv8>): (r: Client)
    requires |pkt| >= 4
  {
    if c.done || DecodeOp(pkt) != TFTP_ACK || ExtractBlock(pkt) != c.current then c
    else if c.current >= LastBlock(file) then c.(done := true)
    else c.(current := c.current + 1)
  }

  // ----- The system -----

  // Packets once sent stay deliverable for ever, any number of times and in any order;
  // a loss is a delivery that never happens, and a retransmission adds nothing new.
  datatype System = System(
    client: Client,
    requested: bool,
    server: Server,
    toServer: set<seq<bv8>>,
    toClient: set<seq<bv8>>)

  ghost predicate Init(file: seq<bv8>, cells: seq<bv8>, s: System) {
    && |cells| == FLASH_SIZE
    && s == System(Client(0, false), false, Server(cells, JSON_UPLOAD_ADDRESS, 0, 0, false, false), {}, {})
  }

  datatype Step =
    | RequestArrives
    | DataArrives(pkt: seq<bv8>)
    | AckArrives(pkt: seq<bv8>)

  // A closed connection has no callback left, so packets for it vanish.
  ghost predicate Next(file: seq<bv8>, s: System, step: Step, t: System) {
    match step
    case RequestArrives =>
      && !s.requested
      && |s.server.cells| == FLASH_SIZE
      && t == s.(requested := true, server := Start(s.server.cells, s.server.newJson),
                 toClient := s.toClient + {AckPacket(0)})
    case DataArrives(pkt) =>
      && pkt in s.toServer
      && if s.server.open then
           && CanWrite(s.server) && 4 <= |pkt| <= TFTP_DATA_PKT_LEN_MAX
           && t == s.(server := Receive(s.server, pkt),
                      toClient := s.toClient + {AckPacket(Receive(s.server, pkt).block)})
         else t == s
    case AckArrives(pkt) =>
      && pkt in s.toClient
      && |pkt| >= 4
      && var c := ClientReceive(file, s.client, pkt);
         t == s.(client := c,
                 toServer := if c.current == s.client.current then s.toServer
                             else s.toServer + {Block(file, c.current)})
  }

  ghost predicate IsRun(file: seq<bv8>, cells: seq<bv8>, run: seq<System>, steps: seq<Step>) {
    && |run| == |steps| + 1
    && Init(file, cells, run[0])
    && forall i | 0 <= i < |steps| :: Next(file, run[i], steps[i], run[i + 1])
  }

  // ----- What the receiver has programmed -----

  // The file fits between the upload and the storage address.
  ghost predicate Fits(file: seq<bv8>) {
    |file| <= STORAGE - UPLOAD
  }

  function PadToBlocks(s: seq<bv8>): (r: seq<bv8>)
    ensures |r| == (|s| + 511) / 512 * 512 && r[..|s|] == s
  {
    s + ZeroBytes((|s| + 511) / 512 * 512 - |s|)
  }

  // The first k blocks, each zero-filled to 512 bytes.
  function Written(file: seq<bv8>, k: nat): (r: seq<bv8>)
    requires k <= LastBlock(file)
  {
    PadToBlocks(file[..Min(512 * k, |file|)])
  }

  lemma WrittenNext(file: seq<bv8>, k: nat)
    requires k < LastBlock(file)
    ensures var data := BlockData(file, k + 1);
            Written(file, k + 1) == if data == [] then Written(file, k) else Written(file, k) + PadToBlock(data)
  {
    var data := BlockData(file, k + 1);
    assert 512 * k <= |file|;
    assert Written(file, k) == file[..512 * k];
    if data == [] {
      assert 512 * k == |file|;
    } else {
      assert file[..Min(512 * (k + 1), |file|)] == file[..512 * k] + data;
    }
  }

  lemma WrittenFits(file: seq<bv8>, k: nat)
    requires Fits(file) && k <= LastBlock(file)
    ensures |Written(file, k)| <= STORAGE - UPLOAD
    ensures k < LastBlock(file) && BlockData(file, k + 1) != [] ==> |Written(file, k)| + 512 <= STORAGE - UPLOAD
  {
    if k < LastBlock(file) {
      assert Written(file, k) == file[..512 * k];
    }
  }

  lemma WrittenAll(file: seq<bv8>)
    ensures Written(file, LastBlock(file)) == PadToBlocks(file)
  {
    assert file[..|file|] == file;
  }

  lemma WrittenNone(file: seq<bv8>)
    ensures Written(file, 0) == []
  {
  }

  // The flash after k accepted blocks, whatever was in it before the request.
  function FlashAfter(file: seq<bv8>, cells: seq<bv8>, k: nat): (r: seq<bv8>)
    requires |cells| == FLASH_SIZE && Fits(file) && k <= LastBlock(file)
    ensures |r| == FLASH_SIZE
  {
    WrittenFits(file, k);
    Program(EraseSector(cells, JSON_SECTOR), UPLOAD, Written(file, k))
  }

  ghost predicate IsBlock(file: seq<bv8>, upTo: nat, p: seq<bv8>) {
    exists k | 1 <= k <= LastBlock(file) :: k <= upTo && p == Block(file, k)
  }

  ghost predicate IsAck(upTo: nat, p: seq<bv8>) {
    exists k | 0 <= k <= upTo :: p == AckPacket(k)
  }

  // Before the request arrives, nothing has happened; afterwards client and receiver
  // are at most one block apart and the flash holds what the block number says.
  ghost predicate Started(file: seq<bv8>, cells: seq<bv8>, c: Client, v: Server)
    requires |cells| == FLASH_SIZE && Fits(file)
  {
    && v.block <= LastBlock(file)
    && v.block <= c.current <= v.block + 1
    && v.writeAddress == JSON_UPLOAD_ADDRESS + |Written(file, v.block)|
    && v.cells == FlashAfter(file, cells, v.block)
    && v.open == (v.block < LastBlock(file))
    && v.newJson == (v.block == LastBlock(file))
    && v.totBytes == Min(512 * v.block, |file|)
  }

  ghost predicate Inv(file: seq<bv8>, cells: seq<bv8>, s: System)
    requires |cells| == FLASH_SIZE && Fits(file)
  {
    && s.client.current <= LastBlock(file)
    && (s.client.done ==> s.server.block == LastBlock(file))
    && (forall p | p in s.toServer :: IsBlock(file, s.client.current, p))
    && (forall p | p in s.toClient :: IsAck(s.server.block, p))
    && if s.requested then Started(file, cells, s.client, s.server)
       else Init(file, cells, s)
  }

  lemma RequestKeepsInv(file: seq<bv8>, cells: seq<bv8>, s: System, t: System)
    requires |cells| == FLASH_SIZE && Fits(file) && Inv(file, cells, s)
    requires Next(file, s, RequestArrives, t)
    ensures Inv(file, cells, t)
  {
    WrittenNone(file);
    ProgramNothing(EraseSector(cells, JSON_SECTOR), UPLOAD);
  }

  // A block already accepted, or one too early, changes nothing.
  lemma ReceiveOther(file: seq<bv8>, v: Server, k: nat)
    requires v.open && CanWrite(v) && 1 <= k < LastBlock(file) && k < 0x1_0000 && k != v.block + 1
    ensures Receive(v, Block(file, k)) == v
  {
    DataPacketBlock(k, BlockData(file, k));
  }

  lemma ReceiveNext(file: seq<bv8>, v: Server)
    requires CanWrite(v) && v.block < LastBlock(file) && v.block + 1 < 0x1_0000
    ensures var data, w := BlockData(file, v.block + 1), Receive(v, Block(file, v.block + 1));
            && w.block == v.block + 1
            && w.cells == (if data == [] then v.cells
                           else Program(v.cells, v.writeAddress - FLASH_BASE, PadToBlock(data)))
            && w.writeAddress == (if data == [] then v.writeAddress else v.writeAddress + 512)
            && w.open == (v.open && w.block < LastBlock(file))
            && w.newJson == (v.newJson || w.block == LastBlock(file))
            && w.totBytes == v.totBytes + |data|
  {
    hide Program, PadToBlock, NetworkOrder;
    DataPacketBlock(v.block + 1, BlockData(file, v.block + 1));
  }

  lemma FlashAfterNext(file: seq<bv8>, cells: seq<bv8>, k: nat)
    requires |cells| == FLASH_SIZE && Fits(file) && k < LastBlock(file)
    ensures var data, at := BlockData(file, k + 1), UPLOAD + |Written(file, k)|;
            && at + (if data == [] then 0 else 512) <= STORAGE
            && |Written(file, k + 1)| == |Written(file, k)| + (if data == [] then 0 else 512)
            && FlashAfter(file, cells, k + 1)
               == if data == [] then FlashAfter(file, cells, k)
                  else Program(FlashAfter(file, cells, k), at, PadToBlock(data))
  {
    var data := BlockData(file, k + 1);
    WrittenNext(file, k);
    WrittenFits(file, k);
    if data != [] {
      ProgramConcat(EraseSector(cells, JSON_SECTOR), UPLOAD, Written(file, k), PadToBlock(data));
    }
  }

  lemma ReceiveKeepsStarted(file: seq<bv8>, cells: seq<bv8>, c: Client, v: Server, pkt: seq<bv8>)
    requires |cells| == FLASH_SIZE && Fits(file) && Started(file, cells, c, v)
    requires v.open && CanWrite(v) && 4 <= |pkt| <= TFTP_DATA_PKT_LEN_MAX && c.current <= LastBlock(file)
    requires IsBlock(file, c.current, pkt)
    ensures var w := Receive(v, pkt);
            Started(file, cells, c, w) && v.block <= w.block
  {
    hide FlashAfter, Written, BlockData, Block, Receive;
    var k :| 1 <= k <= LastBlock(file) && k <= c.current && pkt == Block(file, k);
    if k == v.block + 1 {
      FlashAfterNext(file, cells, v.block);
      ReceiveNext(file, v);
      BlockLength(file, k);
    } else {
      ReceiveOther(file, v, k);
    }
  }

  lemma DataKeepsInv(file: seq<bv8>, cells: seq<bv8>, s: System, pkt: seq<bv8>, t: System)
    requires |cells| == FLASH_SIZE && Fits(file) && Inv(file, cells, s)
    requires Next(file, s, DataArrives(pkt), t)
    ensures Inv(file, cells, t)
  {
    if s.server.open {
      ReceiveKeepsStarted(file, cells, s.client, s.server, pkt);
      forall p | p in t.toClient ensures IsAck(t.server.block, p) {
        if p in s.toClient {
          var k :| 0 <= k <= s.server.block && p == AckPacket(k);
        } else {
          assert p == AckPacket(t.server.block);
        }
      }
    }
  }

  lemma AckKeepsInv(file: seq<bv8>, cells: seq<bv8>, s: System, pkt: seq<bv8>, t: System)
    requires |cells| == FLASH_SIZE && Fits(file) && Inv(file, cells, s)
    requires Next(file, s, AckArrives(pkt), t)
    ensures Inv(file, cells, t)
  {
    assert s.requested;
    var k :| 0 <= k <= s.server.block && pkt == AckPacket(k);
    AckPacketBlock(k);
    var c := t.client.current;
    forall p | p in t.toServer ensures IsBlock(file, c, p) {
      if p in s.toServer {
        var j :| 1 <= j <= LastBlock(file) && j <= s.client.current && p == Block(file, j);
      } else {
        assert p == Block(file, c);
      }
    }
  }

  lemma StepKeepsInv(file: seq<bv8>, cells: seq<bv8>, s: System, step: Step, t: System)
    requires |cells| == FLASH_SIZE && Fits(file) && Inv(file, cells, s) && Next(file, s, step, t)
    ensures Inv(file, cells, t)
  {
    match step
    case RequestArrives => RequestKeepsInv(file, cells, s, t);
    case DataArrives(pkt) => DataKeepsInv(file, cells, s, pkt, t);
    case AckArrives(pkt) => AckKeepsInv(file, cells, s, pkt, t);
  }

  lemma {:induction false} RunKeepsInv(file: seq<bv8>, cells: seq<bv8>, run: seq<System>, steps: seq<Step>, i: nat)
    requires |cells| == FLASH_SIZE && Fits(file) && IsRun(file, cells, run, steps) && i < |run|
    ensures Inv(file, cells, run[i])
  {
    if i > 0 {
      RunKeepsInv(file, cells, run, steps, i - 1);
      StepKeepsInv(file, cells, run[i - 1], steps[i - 1], run[i]);
    }
  }

  // ----- Results over every run -----

  // Whatever the network did, the flash holds exactly the accepted blocks in order, and
  // `newJson` is raised exactly when the last block has been accepted.
  lemma UploadIsLockStep(file: seq<bv8>, cells: seq<bv8>, run: seq<System>, steps: seq<Step>, i: nat)
    requires |cells| == FLASH_SIZE && Fits(file) && IsRun(file, cells, run, steps) && i < |run|
    ensures var v := run[i].server;
            && (!run[i].requested ==> v.cells == cells && !v.newJson)
            && (run[i].requested ==>
                 && v.block <= LastBlock(file)
                 && v.cells == FlashAfter(file, cells, v.block)
                 && (v.newJson <==> v.block == LastBlock(file))
                 && v.totBytes == Min(512 * v.block, |file|))
            && |PadToBlocks(file)| <= STORAGE - UPLOAD
            && (v.newJson ==>
                 && run[i].requested
                 && v.cells == Program(EraseSector(cells, JSON_SECTOR), UPLOAD, PadToBlocks(file)))
  {
    RunKeepsInv(file, cells, run, steps, i);
    WrittenAll(file);
  }

  // A client that has seen its last acknowledgement can rely on the whole file being there.
  lemma DoneMeansDelivered(file: seq<bv8>, cells: seq<bv8>, run: seq<System>, steps: seq<Step>, i: nat)
    requires |cells| == FLASH_SIZE && Fits(file) && IsRun(file, cells, run, steps) && i < |run|
    requires run[i].client.done
    ensures run[i].server.newJson
  {
    RunKeepsInv(file, cells, run, steps, i);
  }

  // The two contents differ in the upload area at most.
  ghost predicate SameOutsideUpload(a: seq<bv8>, b: seq<bv8>) {
    |a| == |b| == FLASH_SIZE && a[..UPLOAD] == b[..UPLOAD] && a[STORAGE..] == b[STORAGE..]
  }

  lemma ProgramInUpload(m: seq<bv8>, at: nat, data: seq<bv8>)
    requires |m| == FLASH_SIZE && UPLOAD <= at && at + |data| <= STORAGE
    ensures SameOutsideUpload(m, Program(m, at, data))
  {
    hide AndBytes;
  }

  lemma ReceiveInUpload(file: seq<bv8>, cells: seq<bv8>, c: Client, v: Server, pkt: seq<bv8>)
    requires |cells| == FLASH_SIZE && Fits(file) && Started(file, cells, c, v)
    requires v.open && CanWrite(v) && 4 <= |pkt| <= TFTP_DATA_PKT_LEN_MAX
    requires IsBlock(file, c.current, pkt)
    ensures SameOutsideUpload(v.cells, Receive(v, pkt).cells)
  {
    hide FlashAfter, Written, BlockData, Block, Receive;
    var k :| 1 <= k <= LastBlock(file) && k <= c.current && pkt == Block(file, k);
    if k == v.block + 1 {
      WrittenFits(file, v.block);
      ReceiveNext(file, v);
      var data := BlockData(file, k);
      if data != [] {
        ProgramInUpload(v.cells, v.writeAddress - FLASH_BASE, PadToBlock(data));
      }
    } else {
      ReceiveOther(file, v, k);
    }
  }

  // The receiver never meets a packet it could not take, so no delivery is ever blocked; and
  // whatever it does with the packet, it leaves the flash outside the upload area alone.
  lemma DeliveryIsSafe(file: seq<bv8>, cells: seq<bv8>, s: System, pkt: seq<bv8>)
    requires |cells| == FLASH_SIZE && Fits(file) && Inv(file, cells, s) && pkt in s.toServer
    ensures exists t :: Next(file, s, DataArrives(pkt), t)
    ensures forall t | Next(file, s, DataArrives(pkt), t) :: SameOutsideUpload(s.server.cells, t.server.cells)
  {
    var k :| 1 <= k <= LastBlock(file) && k <= s.client.current && pkt == Block(file, k);
    var v := s.server;
    if v.open {
      WrittenFits(file, v.block);
      ReceiveInUpload(file, cells, s.client, v, pkt);
      var t := s.(server := Receive(v, pkt), toClient := s.toClient + {AckPacket(Receive(v, pkt).block)});
      assert Next(file, s, DataArrives(pkt), t);
    } else {
      assert Next(file, s, DataArrives(pkt), s);
    }
  }

  lemma RunExtends(file: seq<bv8>, cells: seq<bv8>, run: seq<System>, steps: seq<Step>,
                   a: Step, t: System, b: Step, u: System)
    requires IsRun(file, cells, run, steps) && Next(file, run[|steps|], a, t) && Next(file, t, b, u)
    ensures IsRun(file, cells, run + [t, u], steps + [a, b])
    ensures (run + [t, u])[|steps + [a, b]|] == u
  {
    hide Next, Init;
    var longer, more := run + [t, u], steps + [a, b];
    forall i | 0 <= i < |more| ensures Next(file, longer[i], more[i], longer[i + 1]) {
      if i < |steps| {
        assert longer[i] == run[i] && more[i] == steps[i] && longer[i + 1] == run[i + 1];
      }
    }
  }

  // Client and receiver both stand at block k, and its acknowledgement is in flight.
  ghost predicate AtBlock(s: System, k: nat) {
    s.requested && s.client == Client(k, false) && s.server.block == k && AckPacket(k) in s.toClient
  }

  lemma AckRound(file: seq<bv8>, cells: seq<bv8>, s: System, k: nat) returns (t: System)
    requires |cells| == FLASH_SIZE && Fits(file) && Inv(file, cells, s) && AtBlock(s, k) && k < LastBlock(file)
    ensures Next(file, s, AckArrives(AckPacket(k)), t) && Inv(file, cells, t)
    ensures t == s.(client := Client(k + 1, false), toServer := s.toServer + {Block(file, k + 1)})
  {
    hide Block, NetworkOrder;
    AckPacketBlock(k);
    t := s.(client := Client(k + 1, false), toServer := s.toServer + {Block(file, k + 1)});
    StepKeepsInv(file, cells, s, AckArrives(AckPacket(k)), t);
  }

  lemma DataRound(file: seq<bv8>, cells: seq<bv8>, s: System, k: nat) returns (t: System)
    requires |cells| == FLASH_SIZE && Fits(file) && Inv(file, cells, s) && k < LastBlock(file)
    requires s.requested && s.client == Client(k + 1, false) && s.server.block == k && Block(file, k + 1) in s.toServer
    ensures Next(file, s, DataArrives(Block(file, k + 1)), t) && AtBlock(t, k + 1)
  {
    assert s.server.open;
    DeliveryIsSafe(file, cells, s, Block(file, k + 1));
    hide Inv, Started;
    t :| Next(file, s, DataArrives(Block(file, k + 1)), t);
    hide Block, NetworkOrder, Receive;
    ReceiveNext(file, s.server);
  }

  lemma FirstRound(file: seq<bv8>, cells: seq<bv8>) returns (s: System, t: System)
    requires |cells| == FLASH_SIZE
    ensures IsRun(file, cells, [s, t], [RequestArrives]) && AtBlock(t, 0)
  {
    s := System(Client(0, false), false, Server(cells, JSON_UPLOAD_ADDRESS, 0, 0, false, false), {}, {});
    t := s.(requested := true, server := Start(cells, false), toClient := s.toClient + {AckPacket(0)});
    assert Next(file, s, RequestArrives, t);
  }

  lemma TwoMoreSteps(file: seq<bv8>, cells: seq<bv8>, run: seq<System>, steps: seq<Step>, k: nat)
    returns (longer: seq<System>, more: seq<Step>)
    requires |cells| == FLASH_SIZE && Fits(file) && k < LastBlock(file)
    requires IsRun(file, cells, run, steps) && AtBlock(run[|steps|], k)
    ensures IsRun(file, cells, longer, more) && AtBlock(longer[|more|], k + 1)
  {
    RunKeepsInv(file, cells, run, steps, |steps|);
    var t := AckRound(file, cells, run[|steps|], k);
    var u := DataRound(file, cells, t, k);
    var ack, data := AckArrives(AckPacket(k)), DataArrives(Block(file, k + 1));
    hide Next, Inv, Block, AckPacket, AtBlock;
    RunExtends(file, cells, run, steps, ack, t, data, u);
    longer, more := run + [t, u], steps + [ack, data];
  }

  // A loss-free run accepts block after block, so the results above are about runs that exist.
  lemma {:induction false} SomeRunAccepts(file: seq<bv8>, cells: seq<bv8>, k: nat)
    returns (run: seq<System>, steps: seq<Step>)
    requires |cells| == FLASH_SIZE && Fits(file) && k <= LastBlock(file)
    ensures IsRun(file, cells, run, steps) && AtBlock(run[|steps|], k)
    decreases k
  {
    hide AtBlock;
    if k == 0 {
      var s, t := FirstRound(file, cells);
      run, steps := [s, t], [RequestArrives];
    } else {
      run, steps := SomeRunAccepts(file, cells, k - 1);
      run, steps := TwoMoreSteps(file, cells, run, steps, k - 1);
    }
  }

  lemma SomeRunCompletes(file: seq<bv8>, cells: seq<bv8>) returns (run: seq<System>, steps: seq<Step>)
    requires |cells| == FLASH_SIZE && Fits(file)
    ensures IsRun(file, cells, run, steps) && run[|steps|].server.newJson
  {
    run, steps := SomeRunAccepts(file, cells, LastBlock(file));
    RunKeepsInv(file, cells, run, steps, |steps|);
  }

  // ----- A finished session on flash that was not blank -----

  // The write request erases the storage sector, not the upload area, so what the upload
  // area holds afterwards is the file only where no needed bit had been cleared before.
  lemma UploadExact(file: seq<bv8>, cells: seq<bv8>)
    requires |cells| == FLASH_SIZE && Fits(file)
    ensures var image, after := PadToBlocks(file), FlashAfter(file, cells, LastBlock(file));
            && UPLOAD + |image| <= STORAGE
            && (after[UPLOAD..UPLOAD + |image|] == image
                <==> forall i | 0 <= i < |image| :: cells[UPLOAD + i] & image[i] == image[i])
  {
    var image, after := PadToBlocks(file), FlashAfter(file, cells, LastBlock(file));
    WrittenAll(file);
    WrittenFits(file, LastBlock(file));
    forall i | 0 <= i < |image|
      ensures after[UPLOAD..UPLOAD + |image|][i] == cells[UPLOAD + i] & image[i]
    {
      UploadedByte(cells, image, i);
    }
  }

  lemma UploadedByte(cells: seq<bv8>, image: seq<bv8>, i: nat)
    requires |cells| == FLASH_SIZE && i < |image| <= STORAGE - UPLOAD
    ensures Program(EraseSector(cells, JSON_SECTOR), UPLOAD, image)[UPLOAD + i] == cells[UPLOAD + i] & image[i]
  {
    assert EraseSector(cells, JSON_SECTOR)[UPLOAD + i] == cells[UPLOAD + i];
  }

  // It does happen: on any flash that lacks a bit the file needs, the session finishes as
  // usual and the file is not there.
  lemma UploadLost(file: seq<bv8>, cells: seq<bv8>, i: nat) returns (run: seq<System>, steps: seq<Step>)
    requires |cells| == FLASH_SIZE && Fits(file) && i < |file| && cells[UPLOAD + i] & file[i] != file[i]
    ensures IsRun(file, cells, run, steps)
    ensures run[|steps|].server.newJson && |run[|steps|].server.cells| == FLASH_SIZE
    ensures run[|steps|].server.cells[UPLOAD..UPLOAD + |file|] != file
  {
    run, steps := SomeRunCompletes(file, cells);
    UploadIsLockStep(file, cells, run, steps, |steps|);
    hide IsRun;
    var image := PadToBlocks(file);
    UploadedByte(cells, image, i);
    assert image[i] == image[..|file|][i] == file[i];
    var after := run[|steps|].server.cells;
    assert after[UPLOAD..UPLOAD + |file|][i] == after[UPLOAD + i];
  }
}
