# LZ4Compress container model

LZ4Compress is a command-line tool. It compresses a file block by block through one LZ4 stream, and decompresses such a file back. This project models the container codec at its centre, `app::Compress` and `app::Decompress` in `source/Main.cpp`, and the header record `BinaryHeader` in `source/Format.h`. It proves facts about that model.

The container starts with a 16-byte header. The header holds four uint32 fields:

- the four-character code `'L','Z','4','A'`,
- the original file size,
- the block size,
- the block count.

One frame per block follows the header. Each frame is a 4-byte length prefix and then that many compressed bytes. Every block is compressed through the same LZ4 stream state, so each block may refer back to the blocks before it. The decompressor does the reverse:

- it reads the header,
- it reads exactly BlockCount frames,
- it decompresses frame `i` into a FileSize-byte buffer at offset BlockSize * i,
- it writes the buffer out only if every block succeeded.

Modules, one file each:

- `Bytes` (`bytes.dfy`): bytes and uint32 words, uint32 wrap-around, the memory image of a word (the host is taken to be little-endian), and the byte swap behind `WriteValueU32`.
- `Format` (`format.dfy`): `BinaryHeader`, how the compressor builds it, its 16-byte image and the decompressor's raw read of it.
- `Lz4` (`lz4.dfy`): the LZ4 engine as a capability. An `Engine` is a pair of functions, `compress(history, block, capacity)` and `decompress(history, segment, capacity)`. Here `history` is every byte already fed through the same stream state, and an empty result stands for the library's `return <= 0`. What the container relies on is written as predicates on an engine: `WithinCapacity`, `Lossless` and `NeverFailsWithinBound`. Lemmas that need them take them as hypotheses. No axiom is used: the reference engine `Stored` meets all three. `LZ4_COMPRESSBOUND` and the `int` capacity argument are modelled exactly.
- `Blocks` (`blocks.dfy`): how N bytes are cut into blocks of B bytes. The count is ceil(N / B); block `i` starts at i * B and holds min(B, N - i * B) bytes.
- `Encoder` (`encoder.dfy`): the compress pipeline. `CompressBlocks` is the source's `while` loop over the cursor (offset, available). It is proved against the specification function `Frames(Segments(...))`. `Compress` is the whole run, proved against `Encode`.
- `Decoder` (`decoder.dfy`): the decompress pipeline. `ReadBlocks` is the source's `for` loop filling a local array. `ReadSegment` is one turn of that loop and `CopyInto` is the copy into the output array. They are proved against the specification functions `ReadTurn` / `ReadSegments`. `Decompress` is the whole run, proved against `Decode`.
- `RoundTrip` (`roundtrip.dfy`): with the swap off, decoding what a successful compress run wrote gives back the input, for every block size. The proof needs only that the engine is lossless and stays within its capacity.
- `Findings` (`findings.dfy`): the two defects below, each modelled as written, next to the intended behaviour that the rest of the model uses.

## Model

| member | source | states |
|---|---|---|
| Bytes.Trunc32 | source/Main.cpp:232 | the conversion to uint32 never increases a value and keeps every value below 2^32 |
| Bytes.Trunc32Increment | source/Main.cpp:232-235 | incrementing a converted count wraps exactly as converting the incremented count |
| Bytes.FromToLittleEndian | source/Format.h:8-11 | reading back the 4-byte memory image of a uint32 field gives the field's value |
| Bytes.ToFromLittleEndian | source/Format.h:8-11 | every 4 bytes are the memory image of the word read from them |
| Bytes.LittleEndianInjective | source/Format.h:8-11 | two words with the same memory image are equal |
| Bytes.Swap32 | source/Main.cpp:239-241 | the swapped word's image is the word's image in reverse order |
| Bytes.Swap32Involution | source/Main.cpp:239-241 | swapping twice restores the word |
| Bytes.Swap32Changes | source/Main.cpp:239-241 | the swap leaves a word unchanged exactly when its image reads the same reversed |
| Bytes.WriteValueU32 | source/Main.cpp:239-241 | the stored image is the value's image, reversed when the swap mode is on; with it off the value is stored unchanged |
| Format.FourCC | source/Format.h:8 | the code word's image is 'L','Z','4','A' |
| Format.MakeHeader | source/Main.cpp:237-241 | the built header's code bytes are 'L','Z','4','A' whatever the swap mode; with the swap off the three numeric fields are the given values |
| Format.Serialize | source/Format.h:6-12 | the header image is 16 bytes |
| Format.Parse | source/Main.cpp:152-157 | the raw read: each field is the word whose memory image sits at its offset, 0, 4, 8 and 12 |
| Format.SerializeLayout | source/Format.h:8-11 | the code is at byte 0, the file size at 4, the block size at 8, the block count at 12 |
| Format.ParseSerialize | source/Format.h:6-12 | reading back a written header gives the same four fields |
| Format.SerializeParse | source/Format.h:6-12 | every 16 bytes are the image of the header read from them |
| Format.MadeHeaderBytes | source/Main.cpp:237-242 | the written header is 'L','Z','4','A' then the images of size, block size and count, each reversed when swapping |
| Format.UnswappedHeaderRoundTrip | source/Main.cpp:152-157 | with the swap off, the decompressor reads the file size, block size and count the compressor wrote |
| Format.SwappedHeaderReadsReversed | source/Main.cpp:152-157 | with the swap on, the decompressor, which never swaps, reads every numeric field byte-reversed |
| Lz4.CompressBound | source/Main.cpp:250 | the worst-case bound exceeds every size LZ4 accepts and is 0 for larger ones |
| Lz4.CompressBoundMonotone | source/Main.cpp:250 | a shorter block has no larger bound |
| Lz4.DecompressCapacity | source/Main.cpp:173-178 | the uint32 block size passed as `int` keeps its value below 2^31 and turns negative above |
| Lz4.StoredMeetsAssumptions | source/Main.cpp:252-258 | the storing engine stays within capacity, is lossless, and never fails within the bound, so the three hypotheses can be met |
| Blocks.BlockCount | source/Main.cpp:232-236 | the intended count k is the ceiling: k blocks of B bytes cover the N input bytes, and one block fewer would not |
| Blocks.End | source/Main.cpp:246-273 | where the blocks before block i end, never past the input |
| Blocks.Block | source/Main.cpp:254-256 | block i is the slice the loop passes, of length min(B, N - i * B) |
| Blocks.StartsInside | source/Main.cpp:248 | block `i` exists exactly when i * B is inside the input |
| Blocks.BlockCountIsCeiling | source/Main.cpp:232-236 | the count is 0 exactly for empty input; the blocks cover the input; the last one is not empty; there are at most N blocks |
| Blocks.IncrementedCountIsCeiling | source/Main.cpp:232-236 | N / B plus one when a remainder is left is ceil(N / B) |
| Blocks.BlockLength | source/Main.cpp:256 | each block's length is in 1..B and ends where the next block starts; only the last one is short |
| Blocks.BlockLengths | source/Main.cpp:256 | every block but the last holds B bytes; the last holds N % B, or B when that is 0 |
| Blocks.BlocksArePrefix | source/Main.cpp:269-273 | the blocks are consecutive and do not overlap: the first k of them are the input up to the start of block k |
| Blocks.BlocksCoverInput | source/Main.cpp:248-279 | all the blocks together are exactly the input |
| Encoder.Segment | source/Main.cpp:250-258 | block i compressed under blocks 0 to i-1 into a LZ4_COMPRESSBOUND(B)-byte buffer; an engine within its capacity writes at most that bound |
| Encoder.Segments | source/Main.cpp:248-279 | one segment per block |
| Encoder.SegmentsIndex | source/Main.cpp:252-258 | entry j of the segment list is block j compressed after blocks 0 to j-1 |
| Encoder.SegmentsPrefix | source/Main.cpp:248-279 | the segments of the first j blocks begin those of any longer run |
| Encoder.Prefix | source/Main.cpp:264-266 | the length prefix is 4 bytes |
| Encoder.PrefixReadsBack | source/Main.cpp:264-266 | with the swap off the decompressor reads the prefix back as the segment's size |
| Encoder.Frame | source/Main.cpp:264-267 | a frame is the 4-byte prefix followed by exactly the segment |
| Encoder.FramesAppend | source/Main.cpp:264-267 | writing one more segment appends exactly its frame |
| Encoder.FramesSnoc | source/Main.cpp:264-267 | the frames of the first i + 1 segments are those of the first i followed by the frame of segment i |
| Encoder.FramesPrefix | source/Main.cpp:264-267 | the output is only ever appended: the frames of the first j segments are a prefix of the frames of all |
| Encoder.FrameAt | source/Main.cpp:264-267 | segment i sits right after the frames of segments 0 to i-1, as a prefix holding its size (swapped when swapping) and then exactly its bytes |
| Encoder.FailureFromSpec | source/Main.cpp:259-263 | the failure search stops at a block that fails, after blocks that all compressed |
| Encoder.FirstFailureSpec | source/Main.cpp:259-263 | the first failure is k exactly when blocks 0 to k-1 compressed and block k (if any) failed |
| Encoder.Container | source/Main.cpp:231-284 | a run with the given header count: status 0 exactly when no block failed and -1 otherwise; with the swap off the first 16 bytes read back as the file size, block size and count |
| Encoder.Encode | source/Main.cpp:231-284 | the intended run: status 0 exactly when no block failed; with the swap off its header reads back as N, B and ceil(N / B) |
| Encoder.HeaderBlockCount | source/Main.cpp:232-236 | the count written is ceil(N / B) as a uint32, and exactly ceil(N / B) for N below 2^32 |
| Encoder.CursorStep | source/Main.cpp:246-278 | before each turn offset = i * B and offset + available = N; the turn takes min(available, B) bytes; the loop goes on exactly while blocks remain |
| Encoder.CursorSegment | source/Main.cpp:252-258 | the bytes the loop compresses at the cursor of block i are block i, under the blocks before it |
| Encoder.Advance | source/Main.cpp:264-267 | a block that compressed extends the segment list by its own segment |
| Encoder.CompressBlocks | source/Main.cpp:244-279 | the loop succeeds exactly when no block fails; the bytes written are the frames of the blocks before the first failure, in order |
| Encoder.Compress | source/Main.cpp:231-284 | the status and output are the header then those frames, status 0 exactly when every block compressed and -1 otherwise |
| Decoder.Zeros | source/Main.cpp:160 | the fresh output buffer holds FileSize bytes |
| Decoder.Place | source/Main.cpp:173-178 | placing a block keeps the buffer's size |
| Decoder.PlaceAt | source/Main.cpp:173-178 | placing a block at an offset overwrites exactly the bytes from that offset and keeps every other byte |
| Decoder.SegmentBufferSize | source/Main.cpp:163 | BlockSize bytes as written; the corrected LZ4_COMPRESSBOUND(BlockSize) is larger for every block size LZ4 accepts |
| Decoder.ReadTurn | source/Main.cpp:169-183 | a turn that passes lies inside the input and puts its block inside the buffer |
| Decoder.TurnPasses | source/Main.cpp:169-183 | a turn passes exactly when prefix and segment are in the input, the size fits the segment buffer, the block decompresses and fits at BlockSize * i as a uint32 product |
| Decoder.ReadStep | source/Main.cpp:167-184 | a turn that passes places its block, extends the history and moves on to the next prefix |
| Decoder.ReadStop | source/Main.cpp:179-183 | a turn that stops ends the whole loop with that turn's failure; no later segment is read |
| Decoder.WiderBufferAgrees | source/Main.cpp:163-184 | a loop that succeeds with a smaller segment buffer gives the same result with a larger one |
| Decoder.ReadSegments | source/Main.cpp:167-184 | a successful loop keeps the buffer's FileSize bytes |
| Decoder.DecodeWith | source/Main.cpp:150-191 | a file shorter than the header fails; a successful run yields exactly FileSize bytes as the header states it |
| Decoder.Decode | source/Main.cpp:150-191 | the run with the corrected segment buffer; success yields FileSize bytes |
| Decoder.DecodeAsWritten | source/Main.cpp:150-191 | the run with the source's BlockSize-byte segment buffer; success yields FileSize bytes |
| Decoder.CopyInto | source/Main.cpp:173-178 | the copy leaves the output array as the old one with the block placed at the offset |
| Decoder.ReadSegment | source/Main.cpp:169-183 | one turn returns what its specification returns, copies a passing block into the array and leaves the array alone otherwise |
| Decoder.ReadBlocks | source/Main.cpp:159-184 | the loop succeeds exactly when the specified loop does, and then the array holds the specified bytes |
| Decoder.Decompress | source/Main.cpp:150-191 | status 0 and FileSize bytes when every block succeeded; status -1 and nothing written otherwise |
| RoundTrip.EncodedContainer | source/Main.cpp:237-279 | a run that succeeded wrote the header with ceil(N / B) and then the frames of every block |
| RoundTrip.HeaderThenFrames | source/Main.cpp:242 | the header is the first 16 bytes and the frames follow it |
| RoundTrip.Filled | source/Main.cpp:176 | the partly filled buffer keeps FileSize bytes |
| RoundTrip.PlaceNextBlock | source/Main.cpp:176 | placing block i at i * B into the buffer filled with blocks 0 to i-1 gives the buffer filled with blocks 0 to i |
| RoundTrip.FrameInContainer | source/Main.cpp:264-267 | in the file, segment i's prefix and bytes sit after the header and the frames before it |
| RoundTrip.SegmentDecodes | source/Main.cpp:173-178 | a compressed segment fits the bound, its prefix reads back as its size, and it decompresses under the same history to its block |
| RoundTrip.EncodedDecodable | source/Main.cpp:252-258 | every segment of a run in which all blocks compressed decodes to its block |
| RoundTrip.Offset | source/Main.cpp:169-171 | frames start after the header |
| RoundTrip.OffsetAfterFrames | source/Main.cpp:169-171 | the decompressor's read position before frame i is 16 plus the length of frames 0 to i-1 |
| RoundTrip.ContainerSegments | source/Main.cpp:169-171 | every frame after the header reads back as the segment it holds |
| RoundTrip.TurnAt | source/Main.cpp:167-184 | each turn over such a file passes and yields block i at offset i * B |
| RoundTrip.NextBefore | source/Main.cpp:167-184 | after turn i the read position, history and buffer stand before block i + 1 |
| RoundTrip.FilledAll | source/Main.cpp:167-184 | once every block is in place the buffer is the input |
| RoundTrip.ReadBack | source/Main.cpp:167-184 | from block i on, the loop over such a file rebuilds the whole input |
| RoundTrip.ReadsBackContainer | source/Main.cpp:150-191 | the unswapped header for the input followed by frames of segments that fit the segment buffer and decode to its blocks is decoded to exactly the input, with either segment buffer |
| RoundTrip.RoundTrip | source/Main.cpp:231-279 | with the swap off, decompressing the output of a successful compress run gives back its input, for every block size |
| RoundTrip.EncodeSucceeds | source/Main.cpp:248-263 | an engine that never fails within the bound makes every run with an accepted block size succeed |
| RoundTrip.RoundTripWhenCompressionSucceeds | source/Main.cpp:231-279 | for such an engine the round trip holds for every input below 4 GiB |
| Findings.AsWrittenBlockSize | source/Main.cpp:233-236 | as written, the block size is bumped by one exactly when a short block remains |
| Findings.FloorCount | source/Main.cpp:232 | the count as written is the floor: q * B <= N < q * B + B |
| Findings.EncodeAsWritten | source/Main.cpp:231-279 | the run as written: with the swap off its header reads back as N, the bumped block size and floor(N / B) |
| Findings.AsWrittenOnWholeBlocks | source/Main.cpp:232-241 | on a whole number of blocks the file written as the source does it is the intended one |
| Findings.AsWrittenRoundTripOnWholeBlocks | source/Main.cpp:163-279 | on a whole number of blocks, when every segment fits BlockSize bytes, the source's own compressor and decompressor, with the swap off, give back the input |
| Findings.CorrectedDecodeAgrees | source/Main.cpp:163-184 | wherever the decompressor as written succeeds, the one with the LZ4_COMPRESSBOUND(BlockSize) buffer gives the same bytes, for every block size LZ4 accepts |
| Findings.ShortBlockDropped | source/Main.cpp:232-241 | one byte with block size 2 is written with success; both decompressors read no segment and write out the untouched buffer, [0] in the model and an uninitialised byte in the source |
| Findings.StoredSegmentLength | source/Main.cpp:252-258 | a stored block of B bytes gives a segment of B + 1 bytes |
| Findings.OversizedFirstSegment | source/Main.cpp:163-171 | a container whose first prefix announces more than BlockSize bytes overruns the BlockSize-byte segment buffer, which the model reports as SegmentOverflow |
| Findings.LongFirstFrameOverflows | source/Main.cpp:163-171 | a header then frames whose first segment is longer than the block size overruns that buffer, reported as SegmentOverflow |
| Findings.FirstSegmentOverflows | source/Main.cpp:163-171 | when a successful run's first segment is longer than the block size, decompressing it as written overruns that buffer, reported as SegmentOverflow |
| Findings.StoredRunOverflows | source/Main.cpp:163-171 | with the storing engine every input of at least one full block is written with success, overruns the buffer of the decompressor as written (reported as SegmentOverflow), and is given back by the corrected one |

## Left out

- Command-line parsing, the usage text and `main` (`source/Main.cpp:14-124`, `291-299`) are not modelled, and neither are the process-wide flags. The block size and the swap mode are parameters.
- File handling is not modelled: opening, the `try`/`catch` around it, `tellg`/`seekg` and the stream calls. The input is a byte sequence and the output is the byte sequence written.
- The LZ4 library is not modelled. It is the `Engine` capability, and its guarantees are hypotheses given as `requires`: `WithinCapacity`, `Lossless` and `NeverFailsWithinBound`. The engine sees the whole history of the stream, so LZ4's 64 KB window is one engine among those allowed.
- The host byte order is an assumption of the model: a uint32's memory image is taken to be little-endian. Nothing in the source fixes it.
- The output buffer the decompressor allocates (`source/Main.cpp:160`) is uninitialised. Here it starts as zeros, so any byte no block overwrites reads as 0 in the model and as whatever the heap held in the source.
- Allocation failure is not modelled: each `new char[]` (`source/Main.cpp:160`, `163`, `227`, `251`) is taken to succeed, where the source would throw `std::bad_alloc` and end the process.
- app::Decompress checks nothing but LZ4's return value. Where the file ends early or a buffer would be overrun, the model instead reports an error, which is its own choice:
  - a file that ends inside the header or inside a length prefix (`Truncated`): the read at line 153 or 170 stops early and leaves the rest of the field uninitialised, so the source has undefined behaviour;
  - a file that ends inside a segment (`Truncated`): the read at line 171 stops early and the source does not notice. LZ4 then decompresses all SegmentSize bytes of the segment buffer: the bytes read, followed by whatever the buffer still holds from the previous segment (uninitialised memory for the first). The status then depends on what LZ4 makes of those bytes, and on success the file is written. The model does not follow that path;
  - a segment longer than the segment buffer, which the read at line 171 overruns (`SegmentOverflow`, undefined behaviour in the source);
  - a block that does not fit the FileSize-byte buffer at BlockSize * i (`OutputOverflow`, undefined behaviour in the source).
- Decoder.ReadTurn: the decompressor passes BlockSize as the capacity of every block (`source/Main.cpp:176-178`), also of a short last block, where only FileSize - BlockSize * i bytes of the output buffer remain. The engine is taken to write only the bytes it returns, so the model checks only that the returned block fits (`OutputOverflow`). A real LZ4 call that writes past the returned bytes, up to the declared capacity, is not modelled. The round trip for short last blocks relies on this.
- Encoder.Compress: requires a positive block size. A block size of 0 divides by zero in the source.
- Findings.AsWrittenRoundTripOnWholeBlocks: requires every segment to fit BlockSize bytes, because a longer one overruns the source's segment buffer (finding 2).
- Findings.CorrectedDecodeAgrees: requires a block size LZ4 accepts; above LZ4_MAX_INPUT_SIZE the bound is 0 and the corrected buffer is smaller than the source's.
- Findings.EncodeAsWritten: requires that no short block remains when the block size is 0xFFFFFFFF. In that case the bumped size wraps to 0 and the source's loop never ends.
- RoundTrip.RoundTrip: holds with the swap off and for inputs below 4 GiB only. The decompressor never swaps, and FileSize is a uint32.
- Decoder.Decompress and Decoder.ReadBlocks use a segment buffer of LZ4_COMPRESSBOUND(BlockSize) bytes, the corrected size (finding 2). The source's BlockSize-byte buffer appears only in `Decoder.DecodeAsWritten`.
- Encoder.Compress and Encoder.HeaderBlockCount write the intended count ceil(N / B) with the block size unchanged (finding 1). The code as written is `Findings.EncodeAsWritten`.
- Encoder.CompressBlocks keeps the source's update of the offset after a short last block, `offset += B - available` (`source/Main.cpp:276`). That update is wrong but has no effect, because the loop ends right after it. So offset + available = N holds only while bytes remain.
- The engine's return value is a byte sequence, so the source's `int` sizes and their conversions to uint32 for the length prefix do not arise beyond the wrap of `Trunc32`.
- The block-size increment (`source/Main.cpp:235`) runs before the header is written (`240`), so the header carries the bumped block size.
- The decompressor reads every field raw (`source/Main.cpp:152-157`, `170`), so a container written with the swap mode on does not read back: `Format.SwappedHeaderReadsReversed` shows what it reads instead, and the round trip is stated with the swap off.

## Findings

| source | as written | input that shows it | evidently intended | confidence | as-written member | corrected member |
|---|---|---|---|---|---|---|
| source/Main.cpp:232-236 | when N % B != 0, `++unBlockSize` increments the block size instead of the count; the header then holds floor(N / B) blocks of B + 1 bytes, which need not be the number of segments written | the storing engine, the one-byte input [1] and block size 2: the header says block size 3 and count 0, one segment follows, the run reports success, and decompressing it reads no segment and writes out the untouched output buffer: [0] in the model, one uninitialised byte in the source | count ceil(N / B) with the block size unchanged | not executed | Findings.ShortBlockDropped | Encoder.HeaderBlockCount |
| source/Main.cpp:163 | the segment buffer holds BlockSize bytes, but SegmentSize bytes are read into it (line 171); a segment can be up to LZ4_COMPRESSBOUND(BlockSize) bytes (line 250), which is more | the storing engine and any input of at least one full block, e.g. [7] with block size 1: the 2-byte segment overruns the 1-byte buffer, which the model reports as SegmentOverflow | a segment buffer of LZ4_COMPRESSBOUND(BlockSize) bytes | not executed | Findings.StoredRunOverflows | Decoder.ReadBlocks |
