/** The decompress pipeline: read the header, then exactly BlockCount
    length-prefixed segments, decompressing segment `i` through one stream
    state into a FileSize-byte buffer at offset BlockSize * i; write the buffer
    only when every block succeeded. */
module Decoder {
  import opened Bytes
  import opened Format
  import opened Lz4

  /** Why a run writes nothing. `BlockFailed` is the source's own check (the
      decompressor returned <= 0); the others stand where the source reads or
      writes out of bounds: a stream that ends early, a segment longer than the
      segment buffer, a block that does not fit the output buffer. */
  datatype Failure = Truncated | SegmentOverflow | BlockFailed(index: nat) | OutputOverflow

  datatype Outcome = Written(data: seq<byte>) | Failed(failure: Failure)

  /** The output buffer before any block lands in it. The source leaves it
      uninitialised; the model fills it with zeros. */
  function Zeros(n: nat): (r: seq<byte>)
    ensures |r| == n && forall k :: 0 <= k < n ==> r[k] == 0
  {
    seq(n, _ => 0)
  }

  /** `buf` with `r` copied in at `offset`, one byte after another. */
  function Place(buf: seq<byte>, offset: nat, r: seq<byte>): (p: seq<byte>)
    requires offset + |r| <= |buf|
    ensures |p| == |buf|
    decreases |r|
  {
    if |r| == 0 then buf else Place(buf[offset := r[0]], offset + 1, r[1..])
  }

  /** Placing overwrites exactly the bytes from `offset` on with `r` and keeps
      every other byte. */
  lemma {:induction false} PlaceAt(buf: seq<byte>, offset: nat, r: seq<byte>)
    requires offset + |r| <= |buf|
    ensures forall j :: 0 <= j < |buf| ==> Place(buf, offset, r)[j] == if offset <= j < offset + |r| then r[j - offset] else buf[j]
    decreases |r|
  {
    if |r| > 0 {
      PlaceAt(buf[offset := r[0]], offset + 1, r[1..]);
    }
  }

  /** The segment buffer: `blockSize` bytes as the source allocates it, or
      LZ4_COMPRESSBOUND(blockSize) bytes, the most one compress call writes. */
  function SegmentBufferSize(blockSize: u32, asWritten: bool): (r: nat)
    ensures asWritten ==> r == blockSize
    ensures !asWritten && blockSize <= MAX_INPUT_SIZE ==> blockSize < r
  {
    if asWritten then blockSize else CompressBound(blockSize)
  }

  /** What one turn of the segment loop does: stop with a failure, or go on
      past a segment of `size` bytes with `block` to place at `offset`. */
  datatype Turn = Stop(failure: Failure) | Next(size: nat, block: seq<byte>, offset: nat)

  /** Turn `i` of the segment loop, reading at `pos` under the stream history,
      into a buffer of `bufSize` bytes. */
  function ReadTurn(e: Engine, c: seq<byte>, pos: nat, blockSize: u32, capacity: nat,
                    i: nat, history: seq<byte>, bufSize: nat): (t: Turn)
    ensures t.Next? ==> pos + 4 + t.size <= |c| && t.offset + |t.block| <= bufSize
  {
    if |c| < pos + 4 then Stop(Truncated)
    else
      var size := FromLittleEndian(c[pos .. pos + 4]);
      if capacity < size then Stop(SegmentOverflow)
      else if |c| < pos + 4 + size then Stop(Truncated)
      else
        var block := e.decompress(history, c[pos + 4 .. pos + 4 + size], DecompressCapacity(blockSize));
        var offset := Trunc32(blockSize * i);
        if |block| == 0 then Stop(BlockFailed(i))
        else if bufSize < offset + |block| then Stop(OutputOverflow)
        else Next(size, block, offset)
  }

  /** The segment loop from segment `i` on, reading at `pos`, with the stream
      history and the output buffer built so far. */
  function ReadSegments(e: Engine, c: seq<byte>, pos: nat, blockSize: u32, capacity: nat,
                        i: nat, count: nat, history: seq<byte>, buf: seq<byte>): (r: Outcome)
    ensures r.Written? ==> |r.data| == |buf|
    decreases count - i
  {
    if count <= i then Written(buf)
    else
      match ReadTurn(e, c, pos, blockSize, capacity, i, history, |buf|)
      case Stop(failure) => Failed(failure)
      case Next(size, block, offset) =>
        ReadSegments(e, c, pos + 4 + size, blockSize, capacity, i + 1, count, history + block, Place(buf, offset, block))
  }

  /** A whole run over the container bytes `c`. */
  function DecodeWith(e: Engine, c: seq<byte>, asWritten: bool): (r: Outcome)
    ensures |c| < HEADER_SIZE ==> r == Failed(Truncated)
    ensures r.Written? ==> HEADER_SIZE <= |c| && |r.data| == Parse(c[..HEADER_SIZE]).fileSize
  {
    if |c| < HEADER_SIZE then Failed(Truncated)
    else
      var h := Parse(c[..HEADER_SIZE]);
      ReadSegments(e, c, HEADER_SIZE, h.blockSize, SegmentBufferSize(h.blockSize, asWritten),
                   0, h.blockCount, [], Zeros(h.fileSize))
  }

  /** The run with a segment buffer large enough for any segment. */
  function Decode(e: Engine, c: seq<byte>): (r: Outcome)
    ensures r.Written? ==> HEADER_SIZE <= |c| && |r.data| == Parse(c[..HEADER_SIZE]).fileSize
  {
    DecodeWith(e, c, false)
  }

  /** The run with the source's BlockSize-byte segment buffer. */
  function DecodeAsWritten(e: Engine, c: seq<byte>): (r: Outcome)
    ensures r.Written? ==> HEADER_SIZE <= |c| && |r.data| == Parse(c[..HEADER_SIZE]).fileSize
  {
    DecodeWith(e, c, true)
  }

  /** A turn passes exactly when the prefix and the segment are there, the
      size fits the segment buffer, the decompressor returns a block and the
      block fits the output buffer at BlockSize * i (as a uint32 product). */
  lemma TurnPasses(e: Engine, c: seq<byte>, pos: nat, blockSize: u32, capacity: nat,
                   i: nat, history: seq<byte>, bufSize: nat, size: nat, block: seq<byte>, offset: nat)
    ensures ReadTurn(e, c, pos, blockSize, capacity, i, history, bufSize) == Next(size, block, offset) <==>
      && pos + 4 <= |c| && size == FromLittleEndian(c[pos .. pos + 4])
      && size <= capacity && pos + 4 + size <= |c|
      && block == e.decompress(history, c[pos + 4 .. pos + 4 + size], DecompressCapacity(blockSize))
      && offset == Trunc32(blockSize * i) && 0 < |block| && offset + |block| <= bufSize
  {
  }

  /** A turn that passes places its block and moves on to the next segment. */
  lemma ReadStep(e: Engine, c: seq<byte>, pos: nat, blockSize: u32, capacity: nat,
                 i: nat, count: nat, history: seq<byte>, buf: seq<byte>, size: nat, block: seq<byte>, offset: nat)
    requires i < count && ReadTurn(e, c, pos, blockSize, capacity, i, history, |buf|) == Next(size, block, offset)
    ensures offset + |block| <= |buf|
    ensures ReadSegments(e, c, pos, blockSize, capacity, i, count, history, buf)
         == ReadSegments(e, c, pos + 4 + size, blockSize, capacity, i + 1, count, history + block, Place(buf, offset, block))
  {
  }

  /** A turn that stops ends the loop with its failure. */
  lemma ReadStop(e: Engine, c: seq<byte>, pos: nat, blockSize: u32, capacity: nat,
                 i: nat, count: nat, history: seq<byte>, buf: seq<byte>)
    requires i < count && ReadTurn(e, c, pos, blockSize, capacity, i, history, |buf|).Stop?
    ensures ReadSegments(e, c, pos, blockSize, capacity, i, count, history, buf)
         == Failed(ReadTurn(e, c, pos, blockSize, capacity, i, history, |buf|).failure)
  {
  }

  /** A larger segment buffer changes nothing about a loop that succeeds
      with a smaller one: every check passes alike and reads the same. */
  lemma {:induction false} WiderBufferAgrees(e: Engine, c: seq<byte>, pos: nat, blockSize: u32, small: nat, large: nat,
                                             i: nat, count: nat, history: seq<byte>, buf: seq<byte>)
    requires small <= large
    requires ReadSegments(e, c, pos, blockSize, small, i, count, history, buf).Written?
    ensures ReadSegments(e, c, pos, blockSize, large, i, count, history, buf)
         == ReadSegments(e, c, pos, blockSize, small, i, count, history, buf)
    decreases count - i
  {
    if i < count {
      var t := ReadTurn(e, c, pos, blockSize, small, i, history, |buf|);
      assert t.Next?;
      assert ReadTurn(e, c, pos, blockSize, large, i, history, |buf|) == t;
      WiderBufferAgrees(e, c, pos + 4 + t.size, blockSize, small, large, i + 1, count,
                        history + t.block, Place(buf, t.offset, t.block));
    }
  }

  /** The memcpy of a decompressed block into the output buffer. */
  method CopyInto(out: array<byte>, offset: nat, block: seq<byte>)
    requires offset + |block| <= out.Length
    modifies out
    ensures out[..] == Place(old(out[..]), offset, block)
  {
    forall k | 0 <= k < |block| {
      out[offset + k] := block[k];
    }
    PlaceAt(old(out[..]), offset, block);
    assert forall j :: 0 <= j < out.Length ==> out[j] == Place(old(out[..]), offset, block)[j];
  }

  /** One turn of the segment loop of app::Decompress: read the size prefix
      and the segment at `pos`, decompress the segment under the history and
      copy the block into `out` at BlockSize * i. */
  method ReadSegment(e: Engine, container: seq<byte>, pos: nat, blockSize: u32, capacity: nat,
                     i: nat, history: seq<byte>, out: array<byte>) returns (t: Turn)
    modifies out
    ensures t == ReadTurn(e, container, pos, blockSize, capacity, i, history, out.Length)
    ensures t.Next? ==> out[..] == Place(old(out[..]), t.offset, t.block)
    ensures t.Stop? ==> out[..] == old(out[..])
  {
    if |container| < pos + 4 {
      return Stop(Truncated);
    }
    var segmentSize := FromLittleEndian(container[pos .. pos + 4]);
    if capacity < segmentSize {
      return Stop(SegmentOverflow);
    }
    if |container| < pos + 4 + segmentSize {
      return Stop(Truncated);
    }
    var segment := container[pos + 4 .. pos + 4 + segmentSize];
    var block := e.decompress(history, segment, DecompressCapacity(blockSize));
    var offset := Trunc32(blockSize * i);
    if |block| == 0 {
      return Stop(BlockFailed(i));
    }
    if out.Length < offset + |block| {
      return Stop(OutputOverflow);
    }
    t := Next(segmentSize, block, offset);
    assert t == ReadTurn(e, container, pos, blockSize, capacity, i, history, out.Length);
    CopyInto(out, offset, block);
  }

  /** The segment loop of app::Decompress: BlockCount segments read in order
      from `pos`, each decompressed into the FileSize-byte buffer. `ok` is the
      negation of the source's error flag. */
  method ReadBlocks(e: Engine, container: seq<byte>, pos0: nat, blockSize: u32, fileSize: u32, blockCount: u32)
    returns (ok: bool, content: seq<byte>)
    ensures var outcome := ReadSegments(e, container, pos0, blockSize, CompressBound(blockSize), 0, blockCount, [], Zeros(fileSize));
      ok == outcome.Written? && (ok ==> content == outcome.data)
  {
    var out := new byte[fileSize](_ => 0);
    var capacity := CompressBound(blockSize);
    var history := [];
    var pos: nat := pos0;
    ok := true;
    assert out[..] == Zeros(fileSize);
    ghost var outcome := ReadSegments(e, container, pos0, blockSize, capacity, 0, blockCount, [], out[..]);
    for i := 0 to blockCount
      invariant ReadSegments(e, container, pos, blockSize, capacity, i, blockCount, history, out[..]) == outcome
    {
      ghost var before := out[..];
      var t := ReadSegment(e, container, pos, blockSize, capacity, i, history, out);
      if t.Stop? {
        ReadStop(e, container, pos, blockSize, capacity, i, blockCount, history, before);
        ok := false;
        break;
      }
      ReadStep(e, container, pos, blockSize, capacity, i, blockCount, history, before, t.size, t.block, t.offset);
      ghost var after := out[..];
      assert after == Place(before, t.offset, t.block);
      history := history + t.block;
      pos := pos + 4 + t.size;
      assert ReadSegments(e, container, pos, blockSize, capacity, i + 1, blockCount, history, after) == outcome;
    }
    content := out[..];
  }

  /** app::Decompress, from the container bytes to the status and the bytes
      written to the output file. The run is all or nothing: FileSize bytes
      on success, nothing after any failure. */
  method Decompress(e: Engine, container: seq<byte>) returns (status: int, written: seq<byte>)
    ensures status == (if Decode(e, container).Written? then 0 else -1)
    ensures written == (if Decode(e, container).Written? then Decode(e, container).data else [])
    ensures status == 0 ==> HEADER_SIZE <= |container| && |written| == Parse(container[..HEADER_SIZE]).fileSize
  {
    if |container| < HEADER_SIZE {
      return -1, [];
    }
    var header := Parse(container[..HEADER_SIZE]);
    var ok, content := ReadBlocks(e, container, HEADER_SIZE, header.blockSize, header.fileSize, header.blockCount);
    if ok {
      status, written := 0, content;
    } else {
      status, written := -1, [];
    }
  }
}
