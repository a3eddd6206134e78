/** Two places where app::Compress and app::Decompress, as written, do not
    do what the container evidently intends, each modelled as written next
    to the intended behaviour that the rest of the model uses. */
module Findings {
  import opened Bytes
  import opened Format
  import opened Lz4
  import opened Blocks
  import opened Encoder
  import opened Decoder
  import opened RoundTrip

  /** The block size app::Compress goes on with: the increment meant for the
      block count lands on the block size, a uint32, when a short block
      remains. */
  function AsWrittenBlockSize(n: nat, blockSize: u32): (r: u32)
    requires 0 < blockSize
    ensures n % blockSize == 0 ==> r == blockSize
    ensures n % blockSize != 0 && blockSize < 0xFFFF_FFFF ==> r == blockSize + 1
  {
    if n % blockSize != 0 then Trunc32(blockSize + 1) else blockSize
  }

  /** The count app::Compress writes, floor(n / blockSize). */
  function FloorCount(n: nat, blockSize: nat): (q: nat)
    requires 0 < blockSize
    ensures q * blockSize <= n < q * blockSize + blockSize
    ensures q <= n
  {
    MulMonotone(1, blockSize, n / blockSize);
    n / blockSize
  }

  /** app::Compress as written: the header carries the floor count
      n / blockSize and the bumped block size, and the loop cuts the input by
      the bumped size. A block size of 0xFFFFFFFF with a short block would
      wrap to zero, on which the loop never ends. */
  function EncodeAsWritten(e: Engine, x: seq<byte>, blockSize: u32, swap: bool): (r: Encoded)
    requires 0 < blockSize && (|x| % blockSize == 0 || blockSize < 0xFFFF_FFFF)
    ensures HEADER_SIZE <= |r.bytes|
    ensures !swap && |x| < 0x1_0000_0000 ==>
      Parse(r.bytes[..HEADER_SIZE]) == BinaryHeader(FourCC(), |x|, AsWrittenBlockSize(|x|, blockSize), FloorCount(|x|, blockSize))
  {
    Container(e, x, AsWrittenBlockSize(|x|, blockSize), Trunc32(FloorCount(|x|, blockSize)), swap)
  }

  /** When the input is a whole number of blocks the misplaced increment
      never runs and the written container is the intended one. */
  lemma AsWrittenOnWholeBlocks(e: Engine, x: seq<byte>, blockSize: u32, swap: bool)
    requires 0 < blockSize && |x| % blockSize == 0
    ensures EncodeAsWritten(e, x, blockSize, swap) == Encode(e, x, blockSize, swap)
  {
    IncrementedCountIsCeiling(|x|, blockSize);
  }

  /** So on whole blocks, and when every segment fits the BlockSize-byte
      segment buffer, the source's own pair of runs, with the swap off, gives
      back the input. */
  lemma AsWrittenRoundTripOnWholeBlocks(e: Engine, x: seq<byte>, blockSize: u32)
    requires WithinCapacity(e) && Lossless(e)
    requires 0 < blockSize && |x| < 0x1_0000_0000 && |x| % blockSize == 0
    requires EncodeAsWritten(e, x, blockSize, false).status == 0
    requires forall j :: 0 <= j < BlockCount(|x|, blockSize) ==> |Segment(e, x, blockSize, j)| <= blockSize
    ensures DecodeAsWritten(e, EncodeAsWritten(e, x, blockSize, false).bytes) == Written(x)
  {
    var k := BlockCount(|x|, blockSize);
    AsWrittenOnWholeBlocks(e, x, blockSize, false);
    EncodedContainer(e, x, blockSize);
    EncodedDecodable(e, x, blockSize);
    var segments := Segments(e, x, blockSize, k);
    forall j | 0 <= j < k
      ensures DecodesAt(e, x, blockSize, segments, blockSize, j)
    {
      assert DecodesAt(e, x, blockSize, segments, CompressBound(blockSize), j);
      SegmentsIndex(e, x, blockSize, j, k);
    }
    assert SegmentBufferSize(blockSize, true) == blockSize;
    ReadsBackContainer(e, x, blockSize, segments, true);
  }

  /** With a short block, the count written, n / blockSize, need not be the
      number of segments written, ceil(n / (blockSize + 1)): one byte with
      block size 2 gives block size 3, one segment and block count 0. The
      run reports success, and both decoders read no segment and write out
      the untouched output buffer in place of the input byte: zero here,
      uninitialised memory in the source. */
  lemma ShortBlockDropped()
    ensures EncodeAsWritten(Stored, [1], 2, false).status == 0
    ensures DecodeAsWritten(Stored, EncodeAsWritten(Stored, [1], 2, false).bytes) == Written([0])
    ensures Decode(Stored, EncodeAsWritten(Stored, [1], 2, false).bytes) == Written([0])
  {
    var x: seq<byte> := [1];
    var h := MakeHeader(1, 3, 0, false);
    var frames := Frames(Segments(Stored, x, 3, FirstFailure(Stored, x, 3)), false);
    assert BlockCount(1, 3) == 1;
    assert Segment(Stored, x, 3, 0) == [0, 1];
    FirstFailureSpec(Stored, x, 3, 1);
    HeaderThenFrames(h, frames);
    UnswappedHeaderRoundTrip(1, 3, 0);
    assert Zeros(1) == [0];
  }

  /** Wherever the decoder as written succeeds, the decoder with a segment
      buffer of LZ4_COMPRESSBOUND(BlockSize) bytes gives the same bytes, for
      every block size LZ4 accepts. */
  lemma CorrectedDecodeAgrees(e: Engine, c: seq<byte>)
    requires HEADER_SIZE <= |c| && Parse(c[..HEADER_SIZE]).blockSize <= MAX_INPUT_SIZE
    requires DecodeAsWritten(e, c).Written?
    ensures Decode(e, c) == DecodeAsWritten(e, c)
  {
    var h := Parse(c[..HEADER_SIZE]);
    WiderBufferAgrees(e, c, HEADER_SIZE, h.blockSize, h.blockSize, CompressBound(h.blockSize),
                      0, h.blockCount, [], Zeros(h.fileSize));
  }

  /** A block the engine stores rather than shrinks makes a segment one byte
      longer than the block. */
  lemma StoredSegmentLength(x: seq<byte>, blockSize: u32)
    requires 0 < blockSize <= MAX_INPUT_SIZE && blockSize <= |x|
    ensures 0 < BlockCount(|x|, blockSize)
    ensures |Segment(Stored, x, blockSize, 0)| == blockSize + 1
  {
    StartsInside(|x|, blockSize, 0);
  }

  /** The decoder as written reads each segment into a buffer of BlockSize
      bytes: a container whose first prefix announces more than that
      overruns it, which the model reports as SegmentOverflow. */
  lemma OversizedFirstSegment(e: Engine, c: seq<byte>)
    requires HEADER_SIZE + 4 <= |c| && 0 < Parse(c[..HEADER_SIZE]).blockCount
    requires Parse(c[..HEADER_SIZE]).blockSize < FromLittleEndian(c[HEADER_SIZE .. HEADER_SIZE + 4])
    ensures DecodeAsWritten(e, c) == Failed(SegmentOverflow)
  {
    var h := Parse(c[..HEADER_SIZE]);
    assert ReadTurn(e, c, HEADER_SIZE, h.blockSize, h.blockSize, 0, [], h.fileSize) == Stop(SegmentOverflow);
  }

  /** A container of the encoder's shape whose first segment is longer than
      the block size overruns the segment buffer of the decoder as written. */
  lemma LongFirstFrameOverflows(e: Engine, fileSize: u32, blockSize: u32, blockCount: u32,
                                segments: seq<seq<byte>>)
    requires 0 < blockCount && 0 < |segments| && blockSize < |segments[0]| < 0x1_0000_0000
    ensures DecodeAsWritten(e, Serialize(MakeHeader(fileSize, blockSize, blockCount, false)) + Frames(segments, false))
         == Failed(SegmentOverflow)
  {
    var h := MakeHeader(fileSize, blockSize, blockCount, false);
    var frames := Frames(segments, false);
    var c := Serialize(h) + frames;
    HeaderThenFrames(h, frames);
    UnswappedHeaderRoundTrip(fileSize, blockSize, blockCount);
    assert segments[..0] == [];
    FrameInContainer(segments, c, 0);
    FromToLittleEndian(|segments[0]|);
    OversizedFirstSegment(e, c);
  }

  /** A segment longer than the block size (an LZ4 block of incompressible
      data is one) does not fit that buffer: whenever the first segment of an
      encoder's run is longer than the block size, decoding the run as
      written overruns it. */
  lemma FirstSegmentOverflows(e: Engine, x: seq<byte>, blockSize: u32)
    requires WithinCapacity(e)
    requires 0 < blockSize && |x| < 0x1_0000_0000 && 0 < BlockCount(|x|, blockSize)
    requires Encode(e, x, blockSize, false).status == 0
    requires blockSize < |Segment(e, x, blockSize, 0)|
    ensures DecodeAsWritten(e, Encode(e, x, blockSize, false).bytes) == Failed(SegmentOverflow)
  {
    var k := BlockCount(|x|, blockSize);
    EncodedContainer(e, x, blockSize);
    var segments := Segments(e, x, blockSize, k);
    SegmentsIndex(e, x, blockSize, 0, k);
    assert |segments[0]| <= CompressBound(blockSize) < 0x1_0000_0000;
    LongFirstFrameOverflows(e, |x|, blockSize, k, segments);
  }

  /** So with the storing engine every input of at least one full block is
      written with success and overruns the segment buffer of the decoder as
      written, while the decoder with a segment buffer of
      LZ4_COMPRESSBOUND(BlockSize) bytes gives it back. */
  lemma StoredRunOverflows(x: seq<byte>, blockSize: u32)
    requires 0 < blockSize <= MAX_INPUT_SIZE && blockSize <= |x| < 0x1_0000_0000
    ensures Encode(Stored, x, blockSize, false).status == 0
    ensures DecodeAsWritten(Stored, Encode(Stored, x, blockSize, false).bytes) == Failed(SegmentOverflow)
    ensures Decode(Stored, Encode(Stored, x, blockSize, false).bytes) == Written(x)
  {
    StoredMeetsAssumptions();
    StoredSegmentLength(x, blockSize);
    EncodeSucceeds(Stored, x, blockSize, false);
    RoundTripWhenCompressionSucceeds(Stored, x, blockSize);
    FirstSegmentOverflows(Stored, x, blockSize);
  }
}
