/** The image that LinuxCNC_Configs/NucleoHat/upload_config.py sends to the board. */
module Uploader {
  import opened Crc32
  import opened LittleEndian

  const METADATA_LEN: nat := 512

  // Zero bytes up to a multiple of four, for hardware that computes CRCs over words.
  function PadToWord(s: seq<bv8>): (r: seq<bv8>)
    ensures |r| == |s| + PaddingOf(|s|) && r[..|s|] == s
  {
    s + ZeroBytes(PaddingOf(|s|))
  }

  function PaddingOf(n: nat): (p: nat)
    ensures p < 4 && (n + p) % 4 == 0
  {
    if n % 4 > 0 then 4 - n % 4 else 0
  }

  function Metadata(config: seq<bv8>): (m: seq<bv8>)
    ensures |m| == METADATA_LEN
  {
    WordBytes(Crc(0, PadToWord(config))) + Bytes32((|config| + 3) / 4) + Bytes32(|config|) + ZeroBytes(500)
  }

  function Image(config: seq<bv8>): (image: seq<bv8>)
    ensures |image| == METADATA_LEN + |config| + PaddingOf(|config|)
  {
    Metadata(config) + PadToWord(config)
  }

  // Storing four bytes one by one at index i of the list.
  function Store(list: seq<bv8>, i: nat, b: seq<bv8>): (r: seq<bv8>)
    requires |b| == 4 && i + 4 <= |list|
    ensures r == list[..i] + b + list[i + 4..]
  {
    list[i := b[0]][i + 1 := b[1]][i + 2 := b[2]][i + 3 := b[3]]
  }

  lemma StoreThree(c: seq<bv8>, l: seq<bv8>, j: seq<bv8>)
    requires |c| == |l| == |j| == 4
    ensures Store(Store(Store(ZeroBytes(512), 0, c), 4, l), 8, j) == c + l + j + ZeroBytes(500)
  {
  }

  // `binascii.crc32` is the function Crc(0, .) of module Crc32.
  method BuildImage(config: seq<bv8>) returns (image: seq<bv8>)
    ensures image == Image(config)
    ensures METADATA_LEN + |config| <= |image| && |image| % 4 == 0
    ensures image[METADATA_LEN..METADATA_LEN + |config|] == config
    ensures forall i | METADATA_LEN + |config| <= i < |image| :: image[i] == 0
    ensures forall i | 12 <= i < METADATA_LEN :: image[i] == 0
    ensures image[0..4] == WordBytes(Crc(0, image[METADATA_LEN..]))
    ensures |config| < 0x1_0000_0000 ==> Value32(image[4..8]) == (|config| + 3) / 4
    ensures |config| < 0x1_0000_0000 ==> Value32(image[8..12]) == |config|
  {
    ImageLayout(config);
    hide WordBytes, Bytes32, Value32, Crc, Store;
    var data := config;
    var jsonLength := |data|;
    var length := (jsonLength + 3) / 4;
    var mod := jsonLength % 4;
    if mod > 0 {
      data := data + ZeroBytes(4 - mod);
    }
    assert data == PadToWord(config);
    var crc32 := Crc(0, data);
    var metadata := ZeroBytes(METADATA_LEN);
    // The bytes `x & 0xff`, `(x >> 8) & 0xff`, `(x >> 16) & 0xff`, `(x >> 24) & 0xff` of each word.
    metadata := Store(metadata, 0, WordBytes(crc32));
    metadata := Store(metadata, 4, Bytes32(length));
    metadata := Store(metadata, 8, Bytes32(jsonLength));
    StoreThree(WordBytes(crc32), Bytes32(length), Bytes32(jsonLength));
    image := metadata + data;
  }

  // What the image is, byte by byte: the CRC of everything behind the metadata, the length in
  // words, the length in bytes, zeros, the file, zeros.
  lemma ImageLayout(config: seq<bv8>)
    ensures var image := Image(config);
            && |image| % 4 == 0 && METADATA_LEN + |config| <= |image| < METADATA_LEN + |config| + 4
            && image[0..4] == WordBytes(Crc(0, image[METADATA_LEN..]))
            && (|config| < 0x1_0000_0000 ==>
                 && Value32(image[4..8]) == (|config| + 3) / 4
                 && Value32(image[8..12]) == |config|)
            && (forall i | 12 <= i < METADATA_LEN :: image[i] == 0)
            && image[METADATA_LEN..METADATA_LEN + |config|] == config
            && (forall i | METADATA_LEN + |config| <= i < |image| :: image[i] == 0)
  {
    hide WordBytes, Bytes32, Value32, Crc;
    var image, padded := Image(config), PadToWord(config);
    assert image[METADATA_LEN..] == padded;
    assert image[4..8] == Bytes32((|config| + 3) / 4) && image[8..12] == Bytes32(|config|);
    assert image[METADATA_LEN..METADATA_LEN + |config|] == padded[..|config|];
    if |config| < 0x1_0000_0000 {
      Value32OfBytes32((|config| + 3) / 4);
      Value32OfBytes32(|config|);
    }
  }
}
