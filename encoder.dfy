/** The compress pipeline: header, then one length-prefixed segment per block,
    each block compressed under the history of the blocks before it. */
module Encoder {
  import opened Bytes
  import opened Format
  import opened Lz4
  import opened Blocks

  /** What one run leaves behind: the process status (0 or -1) and the bytes
      written to the output file. */
  datatype Encoded = Encoded(status: int, bytes: seq<byte>)

  /** The segment of block `i`: the block compressed, through the one stream
      state of the run, after all earlier blocks, into a buffer of
      LZ4_COMPRESSBOUND(blockSize) bytes. */
  function Segment(e: Engine, x: seq<byte>, blockSize: nat, i: nat): (r: seq<byte>)
    requires 0 < blockSize && i < BlockCount(|x|, blockSize)
    ensures WithinCapacity(e) ==> |r| <= CompressBound(blockSize)
  {
    e.compress(x[..End(|x|, blockSize, i)], Block(x, blockSize, i), CompressBound(blockSize))
  }

  /** The segments of the first `k` blocks, in block order. */
  function Segments(e: Engine, x: seq<byte>, blockSize: nat, k: nat): (s: seq<seq<byte>>)
    requires 0 < blockSize && k <= BlockCount(|x|, blockSize)
    ensures |s| == k
  {
    if k == 0 then [] else Segments(e, x, blockSize, k - 1) + [Segment(e, x, blockSize, k - 1)]
  }

  /** Entry `j` of the segment list is the segment of block `j`. */
  lemma {:induction false} SegmentsIndex(e: Engine, x: seq<byte>, blockSize: nat, j: nat, k: nat)
    requires 0 < blockSize && j < k <= BlockCount(|x|, blockSize)
    ensures Segments(e, x, blockSize, k)[j] == Segment(e, x, blockSize, j)
    decreases k
  {
    if j < k - 1 {
      SegmentsIndex(e, x, blockSize, j, k - 1);
    }
  }

  /** The segments of the first `j` blocks begin those of the first `k`. */
  lemma {:induction false} SegmentsPrefix(e: Engine, x: seq<byte>, blockSize: nat, j: nat, k: nat)
    requires 0 < blockSize && j <= k <= BlockCount(|x|, blockSize)
    ensures Segments(e, x, blockSize, k)[..j] == Segments(e, x, blockSize, j)
    decreases k
  {
    if j < k {
      SegmentsPrefix(e, x, blockSize, j, k - 1);
      var s := Segments(e, x, blockSize, k - 1);
      assert (s + [Segment(e, x, blockSize, k - 1)])[..j] == s[..j];
    } else {
      assert Segments(e, x, blockSize, k)[..k] == Segments(e, x, blockSize, k);
    }
  }

  /** The length prefix written before a segment. */
  function Prefix(segment: seq<byte>, swap: bool): (r: seq<byte>)
    ensures |r| == 4
  {
    LittleEndian(WriteValueU32(Trunc32(|segment|), swap))
  }

  /** With the swap off, the decompressor reads the prefix back as the
      segment's size. */
  lemma PrefixReadsBack(segment: seq<byte>)
    requires |segment| < 0x1_0000_0000
    ensures FromLittleEndian(Prefix(segment, false)) == |segment|
  {
    FromToLittleEndian(|segment|);
  }

  /** A segment as it appears in the file. */
  function Frame(segment: seq<byte>, swap: bool): (r: seq<byte>)
    ensures |r| == 4 + |segment|
    ensures r[..4] == Prefix(segment, swap) && r[4..] == segment
  {
    Prefix(segment, swap) + segment
  }

  /** The segments one after another, each behind its length prefix. */
  function Frames(segments: seq<seq<byte>>, swap: bool): seq<byte>
  {
    if |segments| == 0 then [] else Frames(segments[..|segments| - 1], swap) + Frame(segments[|segments| - 1], swap)
  }

  lemma FramesAppend(segments: seq<seq<byte>>, segment: seq<byte>, swap: bool)
    ensures Frames(segments + [segment], swap) == Frames(segments, swap) + Frame(segment, swap)
  {
    assert (segments + [segment])[..|segments|] == segments;
  }

  /** The same, for the first i + 1 segments of a run. */
  lemma FramesSnoc(segments: seq<seq<byte>>, swap: bool, i: nat)
    requires i < |segments|
    ensures Frames(segments[..i + 1], swap) == Frames(segments[..i], swap) + Frame(segments[i], swap)
  {
    assert segments[..i + 1][..i] == segments[..i];
  }

  /** The first `k` blocks all compressed (the compressor returned > 0). */
  ghost predicate AllCompressed(e: Engine, x: seq<byte>, blockSize: nat, k: nat)
    requires 0 < blockSize && k <= BlockCount(|x|, blockSize)
  {
    forall j :: 0 <= j < k ==> |Segment(e, x, blockSize, j)| > 0
  }

  /** The first block at or after `i` whose compression fails, or the block
      count when none does. */
  function FailureFrom(e: Engine, x: seq<byte>, blockSize: nat, i: nat): (f: nat)
    requires 0 < blockSize && i <= BlockCount(|x|, blockSize)
    ensures i <= f <= BlockCount(|x|, blockSize)
    decreases BlockCount(|x|, blockSize) - i
  {
    if i == BlockCount(|x|, blockSize) then i
    else if |Segment(e, x, blockSize, i)| == 0 then i
    else FailureFrom(e, x, blockSize, i + 1)
  }

  function FirstFailure(e: Engine, x: seq<byte>, blockSize: nat): (f: nat)
    requires 0 < blockSize
    ensures f <= BlockCount(|x|, blockSize)
  {
    FailureFrom(e, x, blockSize, 0)
  }

  lemma {:induction false} FailureFromSpec(e: Engine, x: seq<byte>, blockSize: nat, i: nat)
    requires 0 < blockSize && i <= BlockCount(|x|, blockSize) && AllCompressed(e, x, blockSize, i)
    ensures AllCompressed(e, x, blockSize, FailureFrom(e, x, blockSize, i))
    ensures FailureFrom(e, x, blockSize, i) < BlockCount(|x|, blockSize) ==>
      |Segment(e, x, blockSize, FailureFrom(e, x, blockSize, i))| == 0
    decreases BlockCount(|x|, blockSize) - i
  {
    if i < BlockCount(|x|, blockSize) && |Segment(e, x, blockSize, i)| > 0 {
      FailureFromSpec(e, x, blockSize, i + 1);
    }
  }

  /** The first failure is the one block that fails with every earlier block
      compressed (or the block count when every block compresses). */
  lemma FirstFailureSpec(e: Engine, x: seq<byte>, blockSize: nat, k: nat)
    requires 0 < blockSize && k <= BlockCount(|x|, blockSize)
    ensures FirstFailure(e, x, blockSize) == k <==>
      AllCompressed(e, x, blockSize, k) && (k < BlockCount(|x|, blockSize) ==> |Segment(e, x, blockSize, k)| == 0)
  {
    FailureFromSpec(e, x, blockSize, 0);
  }

  /** Frames are only ever appended: the frames of the first `j` segments
      are a prefix of those of all of them. */
  lemma {:induction false} FramesPrefix(segments: seq<seq<byte>>, swap: bool, j: nat)
    requires j <= |segments|
    ensures |Frames(segments[..j], swap)| <= |Frames(segments, swap)|
    ensures Frames(segments, swap)[..|Frames(segments[..j], swap)|] == Frames(segments[..j], swap)
    decreases |segments|
  {
    if j < |segments| {
      var init := segments[..|segments| - 1];
      assert init[..j] == segments[..j];
      FramesPrefix(init, swap, j);
      var fj, fi := Frames(segments[..j], swap), Frames(init, swap);
      assert Frames(segments, swap) == fi + Frame(segments[|segments| - 1], swap);
      assert (fi + Frame(segments[|segments| - 1], swap))[..|fj|] == fi[..|fj|];
    } else {
      assert segments[..j] == segments;
    }
  }

  lemma SliceOfPrefix(a: seq<byte>, b: seq<byte>, lo: nat, hi: nat)
    requires |a| <= |b| && b[..|a|] == a && lo <= hi <= |a|
    ensures b[lo..hi] == a[lo..hi]
  {
    forall j | 0 <= j < hi - lo
      ensures b[lo..hi][j] == a[lo..hi][j]
    {
      assert b[lo + j] == b[..|a|][lo + j];
    }
  }

  lemma SliceOfConcat(a: seq<byte>, b: seq<byte>, lo: nat, hi: nat)
    requires lo <= hi <= |b|
    ensures (a + b)[|a| + lo .. |a| + hi] == b[lo..hi]
  {
    forall j | 0 <= j < hi - lo
      ensures (a + b)[|a| + lo .. |a| + hi][j] == b[lo..hi][j]
    {
    }
  }

  lemma SliceOfSlice(s: seq<byte>, start: nat, end: nat, lo: nat, hi: nat)
    requires start <= end <= |s| && lo <= hi <= end - start
    ensures s[start..end][lo..hi] == s[start + lo .. start + hi]
  {
    forall j | 0 <= j < hi - lo
      ensures s[start..end][lo..hi][j] == s[start + lo .. start + hi][j]
    {
    }
  }

  lemma SliceAfter(a: seq<byte>, b: seq<byte>, s: seq<byte>)
    requires |a| + |b| <= |s| && s[..|a| + |b|] == a + b
    ensures s[|a| .. |a| + |b|] == b
  {
    SliceOfPrefix(a + b, s, |a|, |a| + |b|);
    SliceOfConcat(a, b, 0, |b|);
    assert b[0..|b|] == b;
  }

  lemma SliceHalves(s: seq<byte>, p: nat, f: seq<byte>, m: nat)
    requires p + |f| <= |s| && s[p .. p + |f|] == f && m <= |f|
    ensures s[p .. p + m] == f[..m] && s[p + m .. p + |f|] == f[m..]
  {
    SliceOfSlice(s, p, p + |f|, 0, m);
    SliceOfSlice(s, p, p + |f|, m, |f|);
    assert f[0..m] == f[..m] && f[m..|f|] == f[m..];
  }

  /** Segment `i` has its frame right after the frames of segments 0 to i-1. */
  lemma FrameIn(segments: seq<seq<byte>>, swap: bool, i: nat)
    requires i < |segments|
    ensures var p, f := |Frames(segments[..i], swap)|, Frame(segments[i], swap);
      && p + |f| == |Frames(segments[..i + 1], swap)| <= |Frames(segments, swap)|
      && Frames(segments, swap)[p .. p + |f|] == f
  {
    FramesPrefix(segments, swap, i + 1);
    FramesSnoc(segments, swap, i);
    SliceAfter(Frames(segments[..i], swap), Frame(segments[i], swap), Frames(segments, swap));
  }

  /** Layout: segment `i` sits right after the frames of segments 0 to i-1,
      as a 4-byte length prefix holding its size followed by exactly the
      segment. */
  lemma FrameAt(segments: seq<seq<byte>>, swap: bool, i: nat)
    requires i < |segments|
    ensures var p, segment := |Frames(segments[..i], swap)|, segments[i];
      && p + 4 + |segment| == |Frames(segments[..i + 1], swap)| <= |Frames(segments, swap)|
      && Frames(segments, swap)[p .. p + 4] == LittleEndian(WriteValueU32(Trunc32(|segment|), swap))
      && Frames(segments, swap)[p + 4 .. p + 4 + |segment|] == segment
  {
    FrameIn(segments, swap, i);
    var f := Frame(segments[i], swap);
    SliceHalves(Frames(segments, swap), |Frames(segments[..i], swap)|, f, 4);
  }

  /** The whole output of a run whose header carries `blockCount`: the header,
      then the frames of the blocks before the first failure; status -1 when
      a block failed. */
  function Container(e: Engine, x: seq<byte>, blockSize: u32, blockCount: u32, swap: bool): (r: Encoded)
    requires 0 < blockSize
    ensures r.status == 0 || r.status == -1
    ensures r.status == 0 <==> FirstFailure(e, x, blockSize) == BlockCount(|x|, blockSize)
    ensures HEADER_SIZE <= |r.bytes|
    ensures !swap ==> Parse(r.bytes[..HEADER_SIZE]) == BinaryHeader(FourCC(), Trunc32(|x|), blockSize, blockCount)
  {
    var f := FirstFailure(e, x, blockSize);
    var h := MakeHeader(Trunc32(|x|), blockSize, blockCount, swap);
    var frames := Frames(Segments(e, x, blockSize, f), swap);
    assert (Serialize(h) + frames)[..HEADER_SIZE] == Serialize(h);
    ParseSerialize(h);
    Encoded(if f == BlockCount(|x|, blockSize) then 0 else -1, Serialize(h) + frames)
  }

  /** The run with the intended block count ceil(n / blockSize) in the header. */
  function Encode(e: Engine, x: seq<byte>, blockSize: u32, swap: bool): (r: Encoded)
    requires 0 < blockSize
    ensures r.status == 0 <==> FirstFailure(e, x, blockSize) == BlockCount(|x|, blockSize)
    ensures HEADER_SIZE <= |r.bytes|
    ensures !swap && |x| < 0x1_0000_0000 ==>
      Parse(r.bytes[..HEADER_SIZE]) == BinaryHeader(FourCC(), |x|, blockSize, BlockCount(|x|, blockSize))
  {
    BlockCountIsCeiling(|x|, blockSize);
    Container(e, x, blockSize, Trunc32(BlockCount(|x|, blockSize)), swap)
  }

  /** The block count the compressor writes into the header: n / blockSize,
      incremented when a short block remains (the intended reading of the
      increment; the count is a uint32 and wraps as one). */
  method HeaderBlockCount(n: nat, blockSize: u32) returns (blockCount: u32)
    requires 0 < blockSize
    ensures blockCount == Trunc32(BlockCount(n, blockSize))
    ensures n < 0x1_0000_0000 ==> blockCount == BlockCount(n, blockSize)
  {
    blockCount := Trunc32(n / blockSize);
    if n % blockSize != 0 {
      blockCount := Trunc32(blockCount as int + 1);
    }
    Trunc32Increment(n / blockSize);
    IncrementedCountIsCeiling(n, blockSize);
    BlockCountIsCeiling(n, blockSize);
  }

  /** One turn of the compress loop on the cursor (offset, available) of block `i`. */
  lemma CursorStep(n: nat, blockSize: nat, i: nat, offset: nat, available: nat)
    requires 0 < blockSize && i < BlockCount(n, blockSize)
    requires offset == i * blockSize && offset + available == n && 0 < available
    ensures offset == End(n, blockSize, i)
    ensures (if available >= blockSize then blockSize else available) == BlockLength(n, blockSize, i)
    ensures available >= blockSize ==> offset + blockSize == (i + 1) * blockSize
    ensures available >= blockSize && available - blockSize > 0 ==> i + 1 < BlockCount(n, blockSize)
    ensures available >= blockSize && available - blockSize == 0 ==> i + 1 == BlockCount(n, blockSize)
    ensures available < blockSize ==> i + 1 == BlockCount(n, blockSize)
  {
    assert (i + 1) * blockSize == i * blockSize + blockSize;
    StartsInside(n, blockSize, i + 1);
  }

  /** The block the compress loop slices at the cursor of block `i` is block `i`. */
  lemma CursorSegment(e: Engine, x: seq<byte>, blockSize: nat, i: nat, offset: nat, length: nat)
    requires 0 < blockSize && i < BlockCount(|x|, blockSize)
    requires offset == End(|x|, blockSize, i) == i * blockSize && length == BlockLength(|x|, blockSize, i)
    ensures offset + length <= |x|
    ensures e.compress(x[..offset], x[offset..offset + length], CompressBound(blockSize)) == Segment(e, x, blockSize, i)
  {
  }

  /** A block that compressed extends the run's segments by its own. */
  lemma Advance(e: Engine, x: seq<byte>, blockSize: nat, i: nat)
    requires 0 < blockSize && i < BlockCount(|x|, blockSize)
    requires AllCompressed(e, x, blockSize, i) && |Segment(e, x, blockSize, i)| > 0
    ensures AllCompressed(e, x, blockSize, i + 1)
    ensures Segments(e, x, blockSize, i + 1) == Segments(e, x, blockSize, i) + [Segment(e, x, blockSize, i)]
  {
  }

  /** The compress loop: the blocks in order through one stream state, each
      written as its length prefix and segment, stopping at the first block
      the compressor fails on. */
  method CompressBlocks(e: Engine, input: seq<byte>, blockSize: u32, swap: bool) returns (ok: bool, frames: seq<byte>)
    requires 0 < blockSize
    ensures ok <==> FirstFailure(e, input, blockSize) == BlockCount(|input|, blockSize)
    ensures frames == Frames(Segments(e, input, blockSize, FirstFailure(e, input, blockSize)), swap)
  {
    var n := |input|;
    BlockCountIsCeiling(n, blockSize);
    var bound := CompressBound(blockSize);
    var offset, available: nat := 0, n;
    ghost var i := 0;
    ghost var segments := [];
    ok := true;
    frames := [];
    while available > 0
      invariant i <= BlockCount(n, blockSize)
      invariant 0 < available ==> offset == i * blockSize && offset + available == n && i < BlockCount(n, blockSize)
      invariant available == 0 ==> i == BlockCount(n, blockSize)
      invariant AllCompressed(e, input, blockSize, i)
      invariant segments == Segments(e, input, blockSize, i) && frames == Frames(segments, swap)
      decreases available
    {
      CursorStep(n, blockSize, i, offset, available);
      var length := if available >= blockSize then blockSize else available;
      var segment := e.compress(input[..offset], input[offset..offset + length], bound);
      CursorSegment(e, input, blockSize, i, offset, length);
      if |segment| == 0 {
        ok := false;
        FirstFailureSpec(e, input, blockSize, i);
        break;
      }
      Advance(e, input, blockSize, i);
      FramesAppend(segments, segment, swap);
      frames := frames + Frame(segment, swap);
      segments := segments + [segment];
      if available >= blockSize {
        offset := offset + blockSize;
        available := available - blockSize;
      } else {
        // The source advances by the unused part of the block here; the loop ends anyway.
        offset := offset + (blockSize - available);
        available := 0;
      }
      i := i + 1;
    }
    if ok {
      FirstFailureSpec(e, input, blockSize, i);
    }
  }

  /** app::Compress, from the whole input in memory to the bytes written,
      with the block-count increment applied to the count. */
  method Compress(e: Engine, input: seq<byte>, blockSize: u32, swap: bool) returns (status: int, output: seq<byte>)
    requires 0 < blockSize
    ensures Encoded(status, output) == Encode(e, input, blockSize, swap)
  {
    var blockCount := HeaderBlockCount(|input|, blockSize);
    var header := MakeHeader(Trunc32(|input|), blockSize, blockCount, swap);
    var ok, frames := CompressBlocks(e, input, blockSize, swap);
    output := Serialize(header) + frames;
    status := if ok then 0 else -1;
  }
}
