/** The TFTP receiver of Src/tftpserver.cpp (sections 2, 4, 5 and 6 of RFC 1350). */
module Tftp {
  import opened Flash
  import opened Board
  import opened LittleEndian
  import opened Uploader
  import opened Wrappers

  const TFTP_WRQ: nat := 2
  const TFTP_DATA: nat := 3
  const TFTP_ACK: nat := 4
  const TFTP_DATA_PKT_HDR_LEN: nat := 4
  const TFTP_DATA_LEN_MAX: nat := 512
  const TFTP_DATA_PKT_LEN_MAX: nat := 516

  // ----- Packets -----

  // Opcodes and block numbers travel most significant byte first.
  function NetworkOrder(n: nat): (b: seq<bv8>)
    ensures |b| == 2
  {
    [(n / 256 % 256) as bv8, (n % 256) as bv8]
  }

  function DecodeOp(buf: seq<bv8>): (r: nat)
    requires |buf| >= 2
  {
    buf[1] as int
  }

  function ExtractBlock(buf: seq<bv8>): (n: nat)
    requires |buf| >= 4
  {
    256 * (buf[2] as int) + (buf[3] as int)
  }

  function DataPacket(block: nat, data: seq<bv8>): (p: seq<bv8>)
    ensures |p| == 4 + |data| && p[4..] == data
  {
    NetworkOrder(TFTP_DATA) + NetworkOrder(block) + data
  }

  function AckPacket(block: nat): (p: seq<bv8>)
    ensures |p| == 4
  {
    NetworkOrder(TFTP_ACK) + NetworkOrder(block)
  }

  lemma BlockRoundTrip(n: nat)
    requires n < 0x1_0000
    ensures var b := NetworkOrder(n); 256 * (b[0] as int) + (b[1] as int) == n
  {
    ByteValue(n / 256 % 256);
    ByteValue(n % 256);
  }

  lemma DataPacketBlock(block: nat, data: seq<bv8>)
    requires block < 0x1_0000
    ensures ExtractBlock(DataPacket(block, data)) == block
  {
    BlockRoundTrip(block);
  }

  lemma AckPacketBlock(block: nat)
    requires block < 0x1_0000
    ensures ExtractBlock(AckPacket(block)) == block && DecodeOp(AckPacket(block)) == TFTP_ACK
  {
    BlockRoundTrip(block);
    ByteValue(4);
  }

  // The bytes of section 5 of RFC 1350: a zero, the opcode, the block number with its most
  // significant byte first.
  lemma PacketLayout(block: nat, data: seq<bv8>)
    requires block < 0x1_0000
    ensures var p := DataPacket(block, data);
            p[0] == 0 && p[1] == 3 && 256 * (p[2] as int) + (p[3] as int) == block && p[4..] == data
    ensures var p := AckPacket(block);
            p[0] == 0 && p[1] == 4 && 256 * (p[2] as int) + (p[3] as int) == block
  {
    BlockRoundTrip(block);
  }

  // ----- The receiver's state and its transitions -----

  // `block` and `totBytes` are the fields of tftp_connection_args; `open` says that
  // the connection has not been cleaned up.
  datatype Server = Server(cells: seq<bv8>, writeAddress: nat, block: nat, totBytes: nat, newJson: bool, open: bool)

  ghost predicate CanWrite(s: Server) {
    && |s.cells| == FLASH_SIZE
    && FLASH_BASE <= s.writeAddress && s.writeAddress - FLASH_BASE + TFTP_DATA_LEN_MAX <= FLASH_SIZE
  }

  // The 512-byte buffer is zeroed before the payload is copied in.
  function PadToBlock(data: seq<bv8>): (r: seq<bv8>)
    requires |data| <= TFTP_DATA_LEN_MAX
    ensures |r| == TFTP_DATA_LEN_MAX && r[..|data|] == data
  {
    data + ZeroBytes(TFTP_DATA_LEN_MAX - |data|)
  }

  function Accept(s: Server, pkt: seq<bv8>): (r: Server)
    requires CanWrite(s) && 4 <= |pkt| <= TFTP_DATA_PKT_LEN_MAX
    ensures |r.cells| == FLASH_SIZE
  {
    if ExtractBlock(pkt) != s.block + 1 then s
    else if |pkt| > TFTP_DATA_PKT_HDR_LEN then
      s.(cells := Program(s.cells, s.writeAddress - FLASH_BASE, PadToBlock(pkt[4..])),
         writeAddress := s.writeAddress + TFTP_DATA_LEN_MAX,
         block := s.block + 1,
         totBytes := s.totBytes + |pkt| - TFTP_DATA_PKT_HDR_LEN)
    else s.(block := s.block + 1)
  }

  function Receive(s: Server, pkt: seq<bv8>): (r: Server)
    requires CanWrite(s) && 4 <= |pkt| <= TFTP_DATA_PKT_LEN_MAX
    ensures |r.cells| == FLASH_SIZE
  {
    var t := Accept(s, pkt);
    if |pkt| < TFTP_DATA_PKT_LEN_MAX then t.(newJson := true, open := false) else t
  }

  // What a write request does: the erased sector is JSON_SECTOR.
  function Start(cells: seq<bv8>, newJson: bool): (r: Server)
    requires |cells| == FLASH_SIZE
    ensures |r.cells| == FLASH_SIZE
  {
    Server(EraseSector(cells, JSON_SECTOR), JSON_UPLOAD_ADDRESS, 0, 0, newJson, true)
  }

  // Any packet shorter than a full block ends the connection and announces a file, whether or
  // not it is the next block; only the next block is also stored.
  lemma ShortPacketEnds(s: Server, pkt: seq<bv8>)
    requires CanWrite(s) && 4 <= |pkt| <= TFTP_DATA_PKT_LEN_MAX
    ensures |pkt| < 516 ==> Receive(s, pkt).newJson && !Receive(s, pkt).open
    ensures 256 * (pkt[2] as int) + (pkt[3] as int) != s.block + 1 ==>
              Receive(s, pkt) == if |pkt| < 516 then s.(newJson := true, open := false) else s
  {
  }

  // ----- The callbacks -----

  class Connection {
    var block: nat
    var totBytes: nat
    var open: bool

    constructor ()
      ensures block == 0 && totBytes == 0 && open
    {
      block, totBytes, open := 0, 0, true;
    }
  }

  ghost function State(g: Globals, args: Connection): (r: Server)
    reads g, g.flash, args
  {
    Server(g.flash.cells, g.flashWriteAddress, args.block, args.totBytes, g.newJson, args.open)
  }

  // 128 turns of the programming loop, two half-words each.
  method ProgramBlock(flash: FlashDevice, start: nat, data: seq<bv8>)
    requires flash.Valid() && !flash.locked && |data| == TFTP_DATA_LEN_MAX
    requires FLASH_BASE <= start && start - FLASH_BASE + TFTP_DATA_LEN_MAX <= FLASH_SIZE
    modifies flash`cells, flash`overwrites
    ensures flash.Valid()
    ensures flash.cells == Program(old(flash.cells), start - FLASH_BASE, data)
    ensures IsBlank(old(flash.cells), start - FLASH_BASE, start - FLASH_BASE + TFTP_DATA_LEN_MAX)
        ==> flash.overwrites == old(flash.overwrites)
  {
    hide Program, IsBlank;
    ghost var before, at := flash.cells, start - FLASH_BASE;
    var address, remaining := start, TFTP_DATA_LEN_MAX;
    var next := 0;
    var status := HalOk;
    ProgramNothing(before, at);
    assert data[..0] == [];
    while remaining != 0 && status == HalOk
      invariant flash.Valid() && status == HalOk
      invariant next + remaining == TFTP_DATA_LEN_MAX && next % 4 == 0 && address == start + next
      invariant flash.cells == Program(before, at, data[..next])
      invariant IsBlank(before, at, at + TFTP_DATA_LEN_MAX) ==> flash.overwrites == old(flash.overwrites)
      decreases remaining
    {
      ProgramMore(before, at, data, next);
      status := flash.ProgramAt(address, data[next..next + 2]);
      ProgramMore(before, at, data, next + 2);
      status := flash.ProgramAt(address + 2, data[next + 2..next + 4]);
      next := next + 4;
      address := address + 4;
      remaining := remaining - 4;
    }
    assert data[..next] == data;
  }

  lemma ProgramMore(m: seq<bv8>, at: nat, data: seq<bv8>, next: nat)
    requires next + 2 <= |data| && at + |data| <= |m|
    ensures Program(Program(m, at, data[..next]), at + next, data[next..next + 2]) == Program(m, at, data[..next + 2])
    ensures IsBlank(m, at, at + |data|) ==> IsBlank(Program(m, at, data[..next]), at + next, at + next + 2)
  {
    assert data[..next] + data[next..next + 2] == data[..next + 2];
    ProgramConcat(m, at, data[..next], data[next..next + 2]);
    ProgramFrame(m, at, data[..next], at + next, at + |data|);
    var p := Program(m, at, data[..next]);
    if IsBlank(m, at, at + |data|) {
      forall i | at + next <= i < at + next + 2 ensures p[i] == 0xFF {
        assert p[at + next..at + |data|][i - at - next] == m[at + next..at + |data|][i - at - next];
      }
    }
  }

  // `totLen` is the packet's length over all its pbufs, `pkt` the contents of the first one.
  method WrqRecvCallback(g: Globals, args: Connection, pkt: seq<bv8>, totLen: nat)
    returns (ack: Option<seq<bv8>>)
    requires g.flash.Valid() && args.open && CanWrite(State(g, args)) && 4 <= |pkt| <= TFTP_DATA_PKT_LEN_MAX
    modifies g`flashWriteAddress, g`newJson, g.flash, args
    ensures g.flash.Valid()
    ensures |pkt| != totLen ==> ack == None && State(g, args) == old(State(g, args))
    ensures |pkt| == totLen ==>
              && State(g, args) == Receive(old(State(g, args)), pkt)
              && ack == Some(AckPacket(args.block))
    ensures old(IsBlank(g.flash.cells, g.flashWriteAddress - FLASH_BASE,
                        g.flashWriteAddress - FLASH_BASE + TFTP_DATA_LEN_MAX))
        ==> g.flash.overwrites == old(g.flash.overwrites)
  {
    hide Program, IsBlank, PadToBlock, ExtractBlock, AckPacket;
    if |pkt| != totLen {
      return None;
    }
    if |pkt| > TFTP_DATA_PKT_HDR_LEN && ExtractBlock(pkt) == args.block + 1 {
      var dataBuffer := PadToBlock(pkt[4..]);
      var status := g.flash.Unlock();
      ProgramBlock(g.flash, g.flashWriteAddress, dataBuffer);
      g.flash.Lock();
      g.flashWriteAddress := g.flashWriteAddress + 512;
      args.block := args.block + 1;
      args.totBytes := args.totBytes + |pkt| - TFTP_DATA_PKT_HDR_LEN;
    } else if ExtractBlock(pkt) == args.block + 1 {
      args.block := args.block + 1;
    }
    ack := Some(AckPacket(args.block));
    if |pkt| < TFTP_DATA_PKT_LEN_MAX {
      args.open := false;
      g.newJson := true;
    }
  }

  method ProcessWrite(g: Globals) returns (args: Connection, ack: seq<bv8>)
    requires g.flash.Valid()
    modifies g`flashWriteAddress, g.flash
    ensures fresh(args) && g.flash.Valid()
    ensures State(g, args) == Start(old(g.flash.cells), g.newJson)
    ensures ack == AckPacket(0) && g.flash.overwrites == old(g.flash.overwrites)
  {
    args := new Connection();
    var status := g.flash.Unlock();
    if status == HalOk {
      status := g.flash.Erase(JSON_SECTOR);
    }
    g.flash.Lock();
    g.flashWriteAddress := JSON_UPLOAD_ADDRESS;
    ack := AckPacket(args.block);
  }

  // Port 69: anything but a write request is ignored.
  method RecvCallback(g: Globals, pkt: seq<bv8>) returns (args: Connection?, ack: Option<seq<bv8>>)
    requires g.flash.Valid() && |pkt| >= 2
    modifies g`flashWriteAddress, g.flash
    ensures g.flash.Valid()
    ensures DecodeOp(pkt) != TFTP_WRQ ==> args == null && ack == None && unchanged(g) && unchanged(g.flash)
    ensures DecodeOp(pkt) == TFTP_WRQ ==>
              && args != null && fresh(args) && ack == Some(AckPacket(0))
              && State(g, args) == Start(old(g.flash.cells), g.newJson)
  {
    var op := DecodeOp(pkt);
    if op != TFTP_WRQ {
      return null, None;
    }
    var packet: seq<bv8>;
    args, packet := ProcessWrite(g);
    ack := Some(packet);
  }
}
