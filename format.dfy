/** The 16-byte container header: four uint32 fields written to the file as
    their memory image, in declaration order. */
module Format {
  import opened Bytes

  const HEADER_SIZE := 16

  /** 'L', 'Z', '4', 'A': the bytes the four-character code is made of. */
  const MAGIC: seq<byte> := [0x4C, 0x5A, 0x34, 0x41]

  /** The in-memory header record. Every field holds the value as stored,
      that is after the optional byte swap. */
  datatype BinaryHeader = BinaryHeader(fourCC: u32, fileSize: u32, blockSize: u32, blockCount: u32)

  /** The word whose memory image is MAGIC. */
  function FourCC(): (r: u32)
    ensures LittleEndian(r) == MAGIC
  {
    ToFromLittleEndian(MAGIC);
    FromLittleEndian(MAGIC)
  }

  /** The header the encoder builds: the four-character code written byte by
      byte, then original size, block size and block count through the
      swapping write helper. */
  function MakeHeader(fileSize: u32, blockSize: u32, blockCount: u32, swap: bool): (h: BinaryHeader)
    ensures LittleEndian(h.fourCC) == MAGIC
    ensures !swap ==> h == BinaryHeader(h.fourCC, fileSize, blockSize, blockCount)
  {
    BinaryHeader(FourCC(),
                 WriteValueU32(fileSize, swap),
                 WriteValueU32(blockSize, swap),
                 WriteValueU32(blockCount, swap))
  }

  /** The bytes `write((char*)&header, sizeof(BinaryHeader))` emits. */
  function Serialize(h: BinaryHeader): (r: seq<byte>)
    ensures |r| == HEADER_SIZE
  {
    LittleEndian(h.fourCC) + LittleEndian(h.fileSize) + LittleEndian(h.blockSize) + LittleEndian(h.blockCount)
  }

  /** The record `read((char*)&header, sizeof(BinaryHeader))` fills: the fields
      are taken raw, with no byte swap. */
  function Parse(s: seq<byte>): (h: BinaryHeader)
    requires |s| == HEADER_SIZE
    ensures LittleEndian(h.fourCC) == s[0..4] && LittleEndian(h.fileSize) == s[4..8]
    ensures LittleEndian(h.blockSize) == s[8..12] && LittleEndian(h.blockCount) == s[12..16]
  {
    ToFromLittleEndian(s[0..4]);
    ToFromLittleEndian(s[4..8]);
    ToFromLittleEndian(s[8..12]);
    ToFromLittleEndian(s[12..16]);
    BinaryHeader(FromLittleEndian(s[0..4]), FromLittleEndian(s[4..8]),
                 FromLittleEndian(s[8..12]), FromLittleEndian(s[12..16]))
  }

  /** Field order and offsets: code at 0, original size at 4, block size at 8,
      block count at 12. */
  lemma SerializeLayout(h: BinaryHeader)
    ensures Serialize(h)[0..4] == LittleEndian(h.fourCC)
    ensures Serialize(h)[4..8] == LittleEndian(h.fileSize)
    ensures Serialize(h)[8..12] == LittleEndian(h.blockSize)
    ensures Serialize(h)[12..16] == LittleEndian(h.blockCount)
  {
    var s := Serialize(h);
    assert s == LittleEndian(h.fourCC) + LittleEndian(h.fileSize) + LittleEndian(h.blockSize) + LittleEndian(h.blockCount);
  }

  lemma ParseSerialize(h: BinaryHeader)
    ensures Parse(Serialize(h)) == h
  {
    SerializeLayout(h);
    FromToLittleEndian(h.fourCC);
    FromToLittleEndian(h.fileSize);
    FromToLittleEndian(h.blockSize);
    FromToLittleEndian(h.blockCount);
  }

  lemma SerializeParse(s: seq<byte>)
    requires |s| == HEADER_SIZE
    ensures Serialize(Parse(s)) == s
  {
    assert s == s[0..4] + s[4..8] + s[8..12] + s[12..16];
  }

  /** The first four bytes of an encoded header are 'L','Z','4','A' whatever
      the swap mode; each numeric field is the value's memory image, reversed
      when swapping. */
  lemma MadeHeaderBytes(fileSize: u32, blockSize: u32, blockCount: u32, swap: bool)
    ensures var s := Serialize(MakeHeader(fileSize, blockSize, blockCount, swap));
      && s[0..4] == MAGIC
      && s[4..8] == (if swap then Reversed4(LittleEndian(fileSize)) else LittleEndian(fileSize))
      && s[8..12] == (if swap then Reversed4(LittleEndian(blockSize)) else LittleEndian(blockSize))
      && s[12..16] == (if swap then Reversed4(LittleEndian(blockCount)) else LittleEndian(blockCount))
  {
    SerializeLayout(MakeHeader(fileSize, blockSize, blockCount, swap));
  }

  /** With swapping off, the decoder reads back exactly what the encoder wrote. */
  lemma UnswappedHeaderRoundTrip(fileSize: u32, blockSize: u32, blockCount: u32)
    ensures Parse(Serialize(MakeHeader(fileSize, blockSize, blockCount, false)))
         == BinaryHeader(FourCC(), fileSize, blockSize, blockCount)
  {
    ParseSerialize(MakeHeader(fileSize, blockSize, blockCount, false));
  }

  /** With swapping on, the decoder (which never swaps) reads every numeric
      field byte-reversed, and the code unchanged. */
  lemma SwappedHeaderReadsReversed(fileSize: u32, blockSize: u32, blockCount: u32)
    ensures Parse(Serialize(MakeHeader(fileSize, blockSize, blockCount, true)))
         == BinaryHeader(FourCC(), Swap32(fileSize), Swap32(blockSize), Swap32(blockCount))
  {
    ParseSerialize(MakeHeader(fileSize, blockSize, blockCount, true));
  }
}
