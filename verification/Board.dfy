/** The globals that Src/tftpserver.cpp and Src/remora.cpp share. */
module Board {
  import opened Flash

  class Globals {
    const flash: FlashDevice
    var newJson: bool
    var crc32: bv32
    var strJson: seq<bv8>
    var staticConfig: bool
    var flashWriteAddress: nat

    constructor (flash: FlashDevice)
      ensures this.flash == flash && !newJson && crc32 == 0 && strJson == [] && !staticConfig
    {
      this.flash := flash;
      newJson, crc32, strJson, staticConfig, flashWriteAddress := false, 0, [], false, 0;
    }
  }
}
