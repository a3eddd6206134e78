/** Decoding what the encoder wrote, with the byte swap off, gives back the
    input: the framing, the block arithmetic and the history threading of
    the two pipelines agree, given only the engine's own round trip. */
module RoundTrip {
  import opened Bytes
  import opened Format
  import opened Lz4
  import opened Blocks
  import opened Encoder
  import opened Decoder

  /** A run that succeeded wrote its header, then the frames of every block. */
  lemma EncodedContainer(e: Engine, x: seq<byte>, blockSize: u32)
    requires 0 < blockSize && |x| < 0x1_0000_0000
    requires Encode(e, x, blockSize, false).status == 0
    ensures AllCompressed(e, x, blockSize, BlockCount(|x|, blockSize))
    ensures BlockCount(|x|, blockSize) <= |x|
    ensures Encode(e, x, blockSize, false).bytes
         == Serialize(MakeHeader(|x|, blockSize, BlockCount(|x|, blockSize), false))
            + Frames(Segments(e, x, blockSize, BlockCount(|x|, blockSize)), false)
  {
    FirstFailureSpec(e, x, blockSize, BlockCount(|x|, blockSize));
    BlockCountIsCeiling(|x|, blockSize);
  }

  lemma HeaderThenFrames(h: BinaryHeader, frames: seq<byte>)
    ensures HEADER_SIZE <= |Serialize(h) + frames|
    ensures (Serialize(h) + frames)[..HEADER_SIZE] == Serialize(h)
    ensures (Serialize(h) + frames)[HEADER_SIZE..] == frames
  {
  }

  /** The output buffer once blocks 0 to i-1 are in place. */
  function Filled(x: seq<byte>, blockSize: nat, i: nat): (r: seq<byte>)
    ensures |r| == |x|
  {
    x[..End(|x|, blockSize, i)] + Zeros(|x| - End(|x|, blockSize, i))
  }

  lemma PlaceNextBlock(x: seq<byte>, blockSize: nat, i: nat)
    requires 0 < blockSize && i < BlockCount(|x|, blockSize)
    ensures End(|x|, blockSize, i) == i * blockSize
    ensures End(|x|, blockSize, i) + |Block(x, blockSize, i)| <= |x|
    ensures Place(Filled(x, blockSize, i), End(|x|, blockSize, i), Block(x, blockSize, i)) == Filled(x, blockSize, i + 1)
    ensures x[..End(|x|, blockSize, i)] + Block(x, blockSize, i) == x[..End(|x|, blockSize, i + 1)]
  {
    StartsInside(|x|, blockSize, i);
    var a, b := End(|x|, blockSize, i), End(|x|, blockSize, i + 1);
    var p := Place(Filled(x, blockSize, i), a, Block(x, blockSize, i));
    PlaceAt(Filled(x, blockSize, i), a, Block(x, blockSize, i));
    forall j | 0 <= j < |x|
      ensures p[j] == Filled(x, blockSize, i + 1)[j]
    {
    }
    assert x[..b] == x[..a] + x[a..b];
  }

  /** A slice of a suffix is a slice of the whole. */
  lemma SliceOfSuffix(c: seq<byte>, d: nat, a: nat, b: nat)
    requires d <= |c| && a <= b <= |c| - d
    ensures c[d + a .. d + b] == c[d..][a..b]
  {
  }

  /** Where segment `i` of a container whose frames hold `segments` sits,
      and what the decoder reads there: its size in the prefix, the segment
      itself after it. */
  lemma FrameInContainer(segments: seq<seq<byte>>, c: seq<byte>, i: nat)
    requires i < |segments| && HEADER_SIZE <= |c| && c[HEADER_SIZE..] == Frames(segments, false)
    ensures var p, segment := HEADER_SIZE + |Frames(segments[..i], false)|, segments[i];
      && p + 4 + |segment| <= |c|
      && c[p .. p + 4] == LittleEndian(Trunc32(|segment|))
      && c[p + 4 .. p + 4 + |segment|] == segment
  {
    var q, segment := |Frames(segments[..i], false)|, segments[i];
    FrameAt(segments, false, i);
    SliceOfSuffix(c, HEADER_SIZE, q, q + 4);
    SliceOfSuffix(c, HEADER_SIZE, q + 4, q + 4 + |segment|);
  }

  /** What the decoder's checks see at segment `i`: a size within the segment
      buffer, and the block back from the decompressor. */
  lemma SegmentDecodes(e: Engine, x: seq<byte>, blockSize: u32, i: nat)
    requires WithinCapacity(e) && Lossless(e)
    requires 0 < blockSize && i < BlockCount(|x|, blockSize)
    requires |Segment(e, x, blockSize, i)| > 0
    ensures blockSize <= MAX_INPUT_SIZE
    ensures |Segment(e, x, blockSize, i)| <= CompressBound(blockSize)
    ensures FromLittleEndian(LittleEndian(Trunc32(|Segment(e, x, blockSize, i)|))) == |Segment(e, x, blockSize, i)|
    ensures e.decompress(x[..End(|x|, blockSize, i)], Segment(e, x, blockSize, i), DecompressCapacity(blockSize))
         == Block(x, blockSize, i)
  {
    var segment := Segment(e, x, blockSize, i);
    assert 0 < |segment| <= CompressBound(blockSize);
    FromToLittleEndian(|segment|);
  }

  /** What the decoder needs of segment `j` of `segments`: it fits a
      segment buffer of `capacity` bytes and its length prefix, and
      decompresses, under blocks 0 to j-1 as history, to block `j`. */
  ghost predicate DecodesAt(e: Engine, x: seq<byte>, blockSize: u32, segments: seq<seq<byte>>, capacity: nat, j: nat)
    requires 0 < blockSize && j < BlockCount(|x|, blockSize) && j < |segments|
  {
    && |segments[j]| <= capacity && |segments[j]| < 0x1_0000_0000
    && e.decompress(x[..End(|x|, blockSize, j)], segments[j], DecompressCapacity(blockSize)) == Block(x, blockSize, j)
  }

  /** `segments` holds one decodable segment per block of `x`. */
  ghost predicate Decodable(e: Engine, x: seq<byte>, blockSize: u32, segments: seq<seq<byte>>, capacity: nat)
    requires 0 < blockSize
  {
    && |segments| == BlockCount(|x|, blockSize)
    && forall j :: 0 <= j < |segments| ==> DecodesAt(e, x, blockSize, segments, capacity, j)
  }

  /** The segments of a run in which every block compressed are decodable. */
  lemma EncodedDecodable(e: Engine, x: seq<byte>, blockSize: u32)
    requires WithinCapacity(e) && Lossless(e)
    requires 0 < blockSize && AllCompressed(e, x, blockSize, BlockCount(|x|, blockSize))
    ensures Decodable(e, x, blockSize, Segments(e, x, blockSize, BlockCount(|x|, blockSize)), CompressBound(blockSize))
  {
    var k := BlockCount(|x|, blockSize);
    var segments := Segments(e, x, blockSize, k);
    forall j | 0 <= j < k
      ensures DecodesAt(e, x, blockSize, segments, CompressBound(blockSize), j)
    {
      SegmentsIndex(e, x, blockSize, j, k);
      SegmentDecodes(e, x, blockSize, j);
    }
  }

  /** Where frame `i` of a container whose frames hold `segments` starts. */
  function Offset(segments: seq<seq<byte>>, i: nat): (p: nat)
    requires i <= |segments|
    ensures HEADER_SIZE <= p
  {
    if i == 0 then HEADER_SIZE else Offset(segments, i - 1) + 4 + |segments[i - 1]|
  }

  lemma {:induction false} OffsetAfterFrames(segments: seq<seq<byte>>, i: nat)
    requires i <= |segments|
    ensures Offset(segments, i) == HEADER_SIZE + |Frames(segments[..i], false)|
  {
    if i > 0 {
      OffsetAfterFrames(segments, i - 1);
      assert segments[..i] == segments[..i - 1] + [segments[i - 1]];
      FramesAppend(segments[..i - 1], segments[i - 1], false);
    }
  }

  /** Frame `j` of `c` as the decoder reads it: a prefix holding the size of
      segment `j`, then the segment. */
  ghost predicate SegmentAt(segments: seq<seq<byte>>, c: seq<byte>, j: nat)
    requires j < |segments|
  {
    var p, segment := Offset(segments, j), segments[j];
    && p + 4 + |segment| <= |c|
    && FromLittleEndian(c[p .. p + 4]) == |segment|
    && c[p + 4 .. p + 4 + |segment|] == segment
  }

  ghost predicate SegmentsAt(segments: seq<seq<byte>>, c: seq<byte>)
  {
    forall j :: 0 <= j < |segments| ==> SegmentAt(segments, c, j)
  }

  /** The frames after the header read back as the segments they hold. */
  lemma ContainerSegments(segments: seq<seq<byte>>, c: seq<byte>)
    requires forall j :: 0 <= j < |segments| ==> |segments[j]| < 0x1_0000_0000
    requires HEADER_SIZE <= |c| && c[HEADER_SIZE..] == Frames(segments, false)
    ensures SegmentsAt(segments, c)
  {
    forall j | 0 <= j < |segments|
      ensures SegmentAt(segments, c, j)
    {
      OffsetAfterFrames(segments, j);
      FrameInContainer(segments, c, j);
      FromToLittleEndian(|segments[j]|);
    }
  }

  /** What the segment loop holds before block `i` of a container `c` whose
      frames hold the decodable segments of `x`: the read position at frame
      `i`, blocks 0 to i-1 as the stream history, and the buffer filled with
      them. */
  ghost predicate Before(e: Engine, x: seq<byte>, blockSize: u32, segments: seq<seq<byte>>, capacity: nat, c: seq<byte>,
                         i: nat, pos: nat, history: seq<byte>, buf: seq<byte>)
  {
    && 0 < blockSize && |x| < 0x1_0000_0000 && i <= BlockCount(|x|, blockSize)
    && Decodable(e, x, blockSize, segments, capacity) && SegmentsAt(segments, c)
    && pos == Offset(segments, i) && history == x[..End(|x|, blockSize, i)] && buf == Filled(x, blockSize, i)
  }

  /** Turn `i` of the decoder's segment loop over such a container passes
      every check, with block `i` to place at End(i). */
  lemma TurnAt(e: Engine, x: seq<byte>, blockSize: u32, segments: seq<seq<byte>>, capacity: nat, c: seq<byte>,
               i: nat, pos: nat, history: seq<byte>, buf: seq<byte>)
    requires Before(e, x, blockSize, segments, capacity, c, i, pos, history, buf) && i < BlockCount(|x|, blockSize)
    ensures End(|x|, blockSize, i) + |Block(x, blockSize, i)| <= |buf|
    ensures ReadTurn(e, c, pos, blockSize, capacity, i, history, |buf|)
         == Next(|segments[i]|, Block(x, blockSize, i), End(|x|, blockSize, i))
  {
    assert SegmentAt(segments, c, i);
    assert DecodesAt(e, x, blockSize, segments, capacity, i);
    StartsInside(|x|, blockSize, i);
    var offset := End(|x|, blockSize, i);
    assert Trunc32(blockSize * i) == offset;
    TurnPasses(e, c, pos, blockSize, capacity, i, history, |buf|,
               |segments[i]|, Block(x, blockSize, i), offset);
  }

  /** After turn `i`, block `i` has landed at its offset and the loop stands
      before block `i + 1`. */
  lemma NextBefore(e: Engine, x: seq<byte>, blockSize: u32, segments: seq<seq<byte>>, capacity: nat, c: seq<byte>,
                   i: nat, pos: nat, history: seq<byte>, buf: seq<byte>)
    requires Before(e, x, blockSize, segments, capacity, c, i, pos, history, buf) && i < BlockCount(|x|, blockSize)
    ensures End(|x|, blockSize, i) + |Block(x, blockSize, i)| <= |buf|
    ensures Before(e, x, blockSize, segments, capacity, c, i + 1, pos + 4 + |segments[i]|, history + Block(x, blockSize, i),
                   Place(buf, End(|x|, blockSize, i), Block(x, blockSize, i)))
  {
    PlaceNextBlock(x, blockSize, i);
  }

  /** Once every block has landed, the buffer is the input. */
  lemma FilledAll(x: seq<byte>, blockSize: nat)
    requires 0 < blockSize
    ensures Filled(x, blockSize, BlockCount(|x|, blockSize)) == x
  {
    StartsInside(|x|, blockSize, BlockCount(|x|, blockSize));
    assert x[..|x|] == x;
  }

  /** The segment loop, started at block `i` of such a container, rebuilds
      the whole input. */
  lemma {:induction false} ReadBack(e: Engine, x: seq<byte>, blockSize: u32, segments: seq<seq<byte>>, capacity: nat, c: seq<byte>,
                                    i: nat, pos: nat, history: seq<byte>, buf: seq<byte>)
    requires Before(e, x, blockSize, segments, capacity, c, i, pos, history, buf)
    ensures ReadSegments(e, c, pos, blockSize, capacity, i, BlockCount(|x|, blockSize), history, buf)
         == Written(x)
    decreases BlockCount(|x|, blockSize) - i
  {
    if i == BlockCount(|x|, blockSize) {
      FilledAll(x, blockSize);
      assert ReadSegments(e, c, pos, blockSize, capacity, i, BlockCount(|x|, blockSize), history, buf) == Written(buf);
    } else {
      var size, block, offset := |segments[i]|, Block(x, blockSize, i), End(|x|, blockSize, i);
      TurnAt(e, x, blockSize, segments, capacity, c, i, pos, history, buf);
      NextBefore(e, x, blockSize, segments, capacity, c, i, pos, history, buf);
      ReadBack(e, x, blockSize, segments, capacity, c, i + 1, pos + 4 + size, history + block, Place(buf, offset, block));
      var next := ReadSegments(e, c, pos + 4 + size, blockSize, capacity, i + 1, BlockCount(|x|, blockSize),
                               history + block, Place(buf, offset, block));
      assert next == Written(x);
      assert ReadSegments(e, c, pos, blockSize, capacity, i, BlockCount(|x|, blockSize), history, buf) == next;
    }
  }

  /** A container made of the unswapped header for `x` and the frames of
      segments that fit the decoder's segment buffer and decode to the blocks
      of `x` is decoded to exactly `x`, with either segment buffer. */
  lemma ReadsBackContainer(e: Engine, x: seq<byte>, blockSize: u32, segments: seq<seq<byte>>, asWritten: bool)
    requires 0 < blockSize && |x| < 0x1_0000_0000
    requires Decodable(e, x, blockSize, segments, SegmentBufferSize(blockSize, asWritten))
    ensures BlockCount(|x|, blockSize) < 0x1_0000_0000
    ensures DecodeWith(e, Serialize(MakeHeader(|x|, blockSize, BlockCount(|x|, blockSize), false)) + Frames(segments, false),
                       asWritten) == Written(x)
  {
    var k := BlockCount(|x|, blockSize);
    var capacity := SegmentBufferSize(blockSize, asWritten);
    BlockCountIsCeiling(|x|, blockSize);
    var h := MakeHeader(|x|, blockSize, k, false);
    var frames := Frames(segments, false);
    var c := Serialize(h) + frames;
    HeaderThenFrames(h, frames);
    UnswappedHeaderRoundTrip(|x|, blockSize, k);
    forall j | 0 <= j < |segments|
      ensures |segments[j]| < 0x1_0000_0000
    {
      assert DecodesAt(e, x, blockSize, segments, capacity, j);
    }
    ContainerSegments(segments, c);
    assert x[..End(|x|, blockSize, 0)] == [];
    assert Filled(x, blockSize, 0) == Zeros(|x|);
    ReadBack(e, x, blockSize, segments, capacity, c, 0, HEADER_SIZE, [], Zeros(|x|));
  }

  /** Round trip: a run of the compressor that succeeded, with the swap mode
      off, is decompressed to exactly its input, for every block size. */
  lemma RoundTrip(e: Engine, x: seq<byte>, blockSize: u32)
    requires WithinCapacity(e) && Lossless(e)
    requires 0 < blockSize && |x| < 0x1_0000_0000
    requires Encode(e, x, blockSize, false).status == 0
    ensures Decode(e, Encode(e, x, blockSize, false).bytes) == Written(x)
  {
    EncodedContainer(e, x, blockSize);
    EncodedDecodable(e, x, blockSize);
    ReadsBackContainer(e, x, blockSize, Segments(e, x, blockSize, BlockCount(|x|, blockSize)), false);
  }

  /** A compressor that never fails within LZ4_COMPRESSBOUND makes every run
      succeed once the block size is one LZ4 accepts. */
  lemma EncodeSucceeds(e: Engine, x: seq<byte>, blockSize: u32, swap: bool)
    requires NeverFailsWithinBound(e)
    requires 0 < blockSize <= MAX_INPUT_SIZE
    ensures Encode(e, x, blockSize, swap).status == 0
  {
    var k := BlockCount(|x|, blockSize);
    forall j | 0 <= j < k
      ensures |Segment(e, x, blockSize, j)| > 0
    {
      CompressBoundMonotone(|Block(x, blockSize, j)|, blockSize);
    }
    FirstFailureSpec(e, x, blockSize, k);
  }

  /** The unconditional round trip for an engine that meets all three
      assumptions. */
  lemma RoundTripWhenCompressionSucceeds(e: Engine, x: seq<byte>, blockSize: u32)
    requires WithinCapacity(e) && Lossless(e) && NeverFailsWithinBound(e)
    requires 0 < blockSize <= MAX_INPUT_SIZE && |x| < 0x1_0000_0000
    ensures Decode(e, Encode(e, x, blockSize, false).bytes) == Written(x)
  {
    EncodeSucceeds(e, x, blockSize, false);
    RoundTrip(e, x, blockSize);
  }
}
