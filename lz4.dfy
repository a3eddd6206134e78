/** The block compressor the container is built on, as a capability.

    The LZ4 streaming calls are not modelled; an `Engine` is any pair of
    functions that the stream calls stand for. Each takes the history, the
    bytes already fed through the same stream state in this run (the
    dictionary the state remembers), so one run's state is one history that
    grows block by block. An empty result is the call's "return <= 0". What
    the container relies on is stated as predicates on an engine, required by
    the lemmas that need them and met by the reference engine `Stored`. */
module Lz4 {
  import opened Bytes

  /** LZ4_MAX_INPUT_SIZE */
  const MAX_INPUT_SIZE := 0x7E00_0000

  /** LZ4_COMPRESSBOUND(size): the worst-case output of one compress call,
      0 for a size the compressor refuses. */
  function CompressBound(size: nat): (r: nat)
    ensures size <= MAX_INPUT_SIZE ==> size < r
    ensures size > MAX_INPUT_SIZE ==> r == 0
  {
    if size > MAX_INPUT_SIZE then 0 else size + size / 255 + 16
  }

  lemma CompressBoundMonotone(a: nat, b: nat)
    requires a <= b <= MAX_INPUT_SIZE
    ensures CompressBound(a) <= CompressBound(b)
  {
  }

  /** The decoder passes the uint32 block size as the `int` capacity argument;
      a value above INT_MAX arrives negative. */
  function DecompressCapacity(blockSize: u32): (r: int)
    ensures blockSize < 0x8000_0000 ==> r == blockSize
    ensures blockSize >= 0x8000_0000 ==> r < 0
  {
    if blockSize < 0x8000_0000 then blockSize else blockSize - 0x1_0000_0000
  }

  /** compress(history, block, capacity) stands for LZ4_compress_fast_continue;
      decompress(history, segment, capacity) for LZ4_decompress_safe_continue. */
  datatype Engine = Engine(compress: (seq<byte>, seq<byte>, nat) -> seq<byte>,
                           decompress: (seq<byte>, seq<byte>, int) -> seq<byte>)

  /** Neither call writes more than the capacity it is given. */
  ghost predicate WithinCapacity(e: Engine)
  {
    && (forall h, b, cap :: |e.compress(h, b, cap)| <= cap)
    && (forall h, s, cap :: |e.decompress(h, s, cap)| <= if cap < 0 then 0 else cap)
  }

  /** Decompressing a segment under the history it was compressed under gives
      the block back, whenever the block fits the capacity. */
  ghost predicate Lossless(e: Engine)
  {
    forall h, b, ccap, dcap ::
      0 < |b| <= dcap && |e.compress(h, b, ccap)| > 0 ==> e.decompress(h, e.compress(h, b, ccap), dcap) == b
  }

  /** Compression of an accepted block into a buffer of at least the
      worst-case bound does not fail. */
  ghost predicate NeverFailsWithinBound(e: Engine)
  {
    forall h, b, cap :: 0 < |b| <= MAX_INPUT_SIZE && CompressBound(|b|) <= cap ==> |e.compress(h, b, cap)| > 0
  }

  /** A reference engine: every block is stored behind a one-byte tag, so a
      segment is one byte longer than its block, as an LZ4 block of
      incompressible data is longer than its input. */
  const Stored: Engine :=
    Engine((h: seq<byte>, b: seq<byte>, cap: nat) => if |b| + 1 <= cap then [0 as byte] + b else [],
           (h: seq<byte>, s: seq<byte>, cap: int) => if 1 <= |s| && |s| - 1 <= cap then s[1..] else [])

  lemma StoredMeetsAssumptions()
    ensures WithinCapacity(Stored) && Lossless(Stored) && NeverFailsWithinBound(Stored)
  {
    forall h, b, ccap, dcap | 0 < |b| <= dcap && |Stored.compress(h, b, ccap)| > 0
      ensures Stored.decompress(h, Stored.compress(h, b, ccap), dcap) == b
    {
      assert Stored.compress(h, b, ccap) == [0 as byte] + b;
      assert ([0 as byte] + b)[1..] == b;
    }
  }
}
