# Simple video encoder: temporal delta and run-length codec

This project models the codec of `simple-video-encoder`, a batch compressor for raw video:

- **Frames.** A video is a sequence of frames, and each frame is a byte vector.
- **Encoding (`rle_encode`).** Frame 0 is stored unchanged. Every later frame is replaced by its byte-wise wrap-around difference (`pixel_diff`) from the previous original frame. That difference is written as `(count, value)` byte pairs. A run closes when the next byte differs, when the input ends, or when the count reaches 255.
- **Decoding (`rle_decode`).** The pairs are expanded. The expanded length is checked against the expected frame size (an `assert_eq!`). The delta is then added (`pixel_sum`) onto the previous decoded frame.
- **Layout (`Layout`).** The frames the codec receives come from `yuv_encode`. Each is a full Y plane followed by two chroma planes that `uv_downsample` reduced to a quarter of their size. This module models the integer part of that stage:
  - the index map;
  - the bounds of the reads and writes;
  - the plane concatenation.

How the model represents the program:

- A byte is an `int` in `0..255`, so wrap-around is written out as `% 256`.
- A Rust panic is a value. `Outcomes.Result` is either `Ok(value)` or `Panic(reason)`, where the reason is `IndexOutOfBounds` or `AssertionFailed`. As a result, no operation has a precondition that excludes inputs the program accepts.
- Each loop of the codec (`rle_encode` and `rle_decode`) is a method, proved equal to a specification function: `Codec.Encode`, `Codec.Decode`, `RunLength.Rle`, `RunLength.Expand`, `Codec.Delta` and `Codec.AddDelta`.
- The two loops of `uv_downsample` work in place on arrays. Their postconditions say which quarter-plane entries hold which block averages. The loops of `frame_to_yuv` and `yuv_encode` are not modelled.
- The properties are proved about those functions.

Modules:

- `Outcomes`: `Option` and `Result`.
- `Bytes`: `pixel_diff` and `pixel_sum`.
- `RunLength`: the pair code.
- `Codec`: `rle_encode` and `rle_decode`.
- `Layout`: `uv_downsample` and the frame layout of `yuv_encode`.

## Model

| member | source | states |
|---|---|---|
| Bytes.PixelDiff | simple-video-encoder/src/main.rs:221-227 | the result is `(val_1 - val_2) mod 256` on both branches; without wrap-around it is the plain difference |
| Bytes.PixelSum | simple-video-encoder/src/main.rs:230-237 | the result is `(val_1 + val_2) mod 256`; on the `sum - 256` branch it is `sum - 256` and at most 254 |
| Bytes.SumUndoesDiff | simple-video-encoder/src/main.rs:221-237 | `pixel_sum(b, pixel_diff(a, b)) == a` for all bytes, in the argument order encode and decode use |
| Bytes.DiffUndoesSum | simple-video-encoder/src/main.rs:221-237 | `pixel_diff(pixel_sum(b, d), b) == d`: the difference is the only delta that decodes to a given byte |
| Bytes.WrapExample | simple-video-encoder/src/main.rs:221-237 | 10 - 250 wraps to 16, and 250 + 16 wraps back to 10 |
| RunLength.Repeat | simple-video-encoder/src/main.rs:285-287 | `count` copies of one value byte, as the innermost decode loop pushes them |
| RunLength.RunFrom | simple-video-encoder/src/main.rs:257-260 | the counting loop from a given count: it advances while the count is under 255, the input has not ended and the next byte equals the run's first, and its result never exceeds 255 or the input |
| RunLength.RunAt | simple-video-encoder/src/main.rs:257-260 | the count the encoder emits for the run starting at `j`: between 1 and 255, and within the input |
| RunLength.RunFromStops | simple-video-encoder/src/main.rs:257-260 | the counting loop passes only bytes equal to the run's first byte, and stops at 255, at the end of the input or at a differing byte |
| RunLength.RunAtIsRun | simple-video-encoder/src/main.rs:257-260 | the count emitted for a run covers equal bytes only and ends where the next byte differs, the input ends or the count is 255 |
| RunLength.RunAtUnique | simple-video-encoder/src/main.rs:257-260 | those closing conditions fix the count: any length meeting them is the emitted count |
| RunLength.RleFrom | simple-video-encoder/src/main.rs:254-265 | the pairs the run loop pushes from position `j`: `(count, value)` for the run at `j`, then the pairs after that run |
| RunLength.Rle | simple-video-encoder/src/main.rs:254-265 | the pairs the run loop pushes for a whole delta |
| RunLength.RleEven | simple-video-encoder/src/main.rs:254-265 | an encoded delta has even length, two bytes per run |
| RunLength.RleLengthBound | simple-video-encoder/src/main.rs:254-265 | an encoded delta is at most twice as long as the delta, and is empty exactly when the delta is |
| RunLength.RleCountAt | simple-video-encoder/src/main.rs:257-261 | each count byte the encoder pushes lies between 1 and 255 |
| RunLength.RleCountsInRange | simple-video-encoder/src/main.rs:254-265 | an encoded delta is whole pairs, one per run, and every count byte lies between 1 and 255 |
| RunLength.RleRunsMaximal | simple-video-encoder/src/main.rs:256-265 | a pair with count below 255 is never followed by a pair with the same value, so runs are maximal below the cap |
| RunLength.RleSplitsAtCap | simple-video-encoder/src/main.rs:258-262 | 256 equal bytes encode as `(255, v), (1, v)` |
| RunLength.Expand | simple-video-encoder/src/main.rs:283-288 | the expansion loop: each whole pair contributes `count` copies of its value; a lone trailing count byte of 0 adds nothing, and any other lone count panics reading the missing value byte |
| RunLength.CountSum | simple-video-encoder/src/main.rs:283-285 | the sum of the count bytes of the whole pairs, which is the number of bytes the loop pushes when it succeeds |
| RunLength.ExpandAt | simple-video-encoder/src/main.rs:283-287 | one step of the expansion loop: a whole pair puts `count` copies of its value in front; a lone final count byte ends the expansion if zero and panics otherwise |
| RunLength.ExpandStep | simple-video-encoder/src/main.rs:283-287 | a whole pair in front of an expandable rest expands to `count` copies of its value followed by the expansion of the rest |
| RunLength.ExpandFails | simple-video-encoder/src/main.rs:283-287 | expansion panics exactly on an odd-length vector whose lone final count byte is non-zero |
| RunLength.ExpandLength | simple-video-encoder/src/main.rs:283-289 | a successful expansion is as long as the sum of the count bytes |
| RunLength.RleRoundTrip | simple-video-encoder/src/main.rs:254-287 | expanding the pairs the encoder emits from any position gives back the delta from that position |
| RunLength.RleInverse | simple-video-encoder/src/main.rs:254-287 | expanding the encoding of a whole delta gives the delta back |
| RunLength.RleCountSum | simple-video-encoder/src/main.rs:254-265 | the counts of an encoded delta add up to the delta's length |
| RunLength.TruncatedPairsFail | simple-video-encoder/src/main.rs:254-287 | dropping the last byte of any non-empty encoded delta makes the expansion panic, because a lone count byte is left and every emitted count is at least 1 |
| Codec.Delta | simple-video-encoder/src/main.rs:247-251 | the delta of a frame against the previous one: as long as the frame, with byte `j` equal to `(cur[j] - prev[j]) mod 256` |
| Codec.AddDelta | simple-video-encoder/src/main.rs:291-294 | the frame rebuilt from a delta: as long as the delta, with byte `j` equal to `(prev[j] + delta[j]) mod 256` |
| Codec.AddDeltaUndoesDelta | simple-video-encoder/src/main.rs:247-251 | adding a frame's delta back onto its reference frame restores the frame |
| Codec.DeltaUndoesAddDelta | simple-video-encoder/src/main.rs:291-294 | the delta of a reconstructed frame against its reference is the delta it was built from |
| Codec.Encodable | simple-video-encoder/src/main.rs:248-250 | no frame is longer than the one before it, which is when the read of `frames[i-1][j]` at line 250 stays in bounds |
| Codec.EncodedFrame | simple-video-encoder/src/main.rs:241-268 | entry `i` of the output: frame 0 unchanged, any later frame replaced by the pairs of its delta against the previous original frame |
| Codec.EncodedEntry | simple-video-encoder/src/main.rs:247-268 | in a successful encoding, frame `i` is no longer than frame `i - 1`, and entry `i` is the pair encoding of its delta |
| Codec.Encode | simple-video-encoder/src/main.rs:239-272 | `rle_encode` panics (out of bounds) exactly when some frame is longer than the frame before it; otherwise it returns one entry per frame with frame 0 copied |
| Codec.DeltaOf | simple-video-encoder/src/main.rs:247-251 | the delta loop succeeds exactly when the frame is no longer than the previous one, yielding the byte-wise `pixel_diff`; otherwise it panics out of bounds |
| Codec.CountRun | simple-video-encoder/src/main.rs:257-260 | the inner counting loop yields the count of the run at `j` |
| Codec.EncodeRuns | simple-video-encoder/src/main.rs:253-265 | the run-length loop produces the pair encoding of the delta, and that encoding expands back to the delta |
| Codec.EncodeFrameAt | simple-video-encoder/src/main.rs:247-268 | one outer iteration succeeds exactly when frame `i` is no longer than frame `i - 1`, and then yields the pairs of its delta against the original frame `i - 1` |
| Codec.RleEncode | simple-video-encoder/src/main.rs:239-272 | the loop computes exactly `Encode`, including the panic |
| Codec.DecodeFrame | simple-video-encoder/src/main.rs:282-296 | decoding one later entry. The panics come in the program's order: a count byte with no value byte (out of bounds), then an expanded length other than `size` (`assert_eq!`), then a previous decoded frame shorter than `size` (out of bounds). Otherwise the result is the delta added onto the previous decoded frame |
| Codec.Decode | simple-video-encoder/src/main.rs:274-300 | on success `rle_decode` returns one frame per entry, frame 0 copied, and every later frame `size` bytes long |
| Codec.ExpandOf | simple-video-encoder/src/main.rs:282-288 | the expansion loop computes `Expand`, panicking where it does, and its output is as long as the sum of the counts |
| Codec.AddDeltaOf | simple-video-encoder/src/main.rs:291-294 | the summing loop succeeds exactly when the previous decoded frame covers the delta, yielding the byte-wise `pixel_sum`; otherwise it panics out of bounds |
| Codec.RleDecode | simple-video-encoder/src/main.rs:274-300 | the loop computes exactly `Decode`, including which index or assertion panic happens first (the capacity panic of `Vec::with_capacity(size)` is left out) |
| Codec.DecodeStep | simple-video-encoder/src/main.rs:276-297 | decoding one more entry after a decoded prefix applies the per-frame step to the last decoded frame |
| Codec.DecodePrefixPanic | simple-video-encoder/src/main.rs:274-300 | once a prefix of the entries panics, the whole decode panics the same way |
| Codec.DecodePrefixOk | simple-video-encoder/src/main.rs:274-300 | a successful decode decodes every prefix to the corresponding prefix of its output |
| Codec.EncodedFrameIsPairs | simple-video-encoder/src/main.rs:247-268 | every later entry of a successful encoding is whole pairs, one per run, with counts in 1..255 summing to the frame's length and expanding to the delta exactly |
| Codec.DecodeStopsAt | simple-video-encoder/src/main.rs:283-294 | the first entry that fails to decode decides the panic of the whole decode |
| Codec.DecodeLengthMismatch | simple-video-encoder/src/main.rs:289 | once the entries before it decode, an entry expanding to a length other than `size` makes the decode fail on the `assert_eq!` |
| Codec.DecodedByteAt | simple-video-encoder/src/main.rs:291-294 | after a successful decode, byte `j` of frame `i` is `pixel_sum` of byte `j` of decoded frame `i - 1` and byte `j` of the expanded delta, which is `size` long |
| Codec.DecodeExtend | simple-video-encoder/src/main.rs:291-296 | a decoded prefix extends by one frame when the next entry decodes onto the last frame of the prefix |
| Codec.EncodedFrameDecodes | simple-video-encoder/src/main.rs:282-296 | decoding encoded entry `i` onto the original frame `i - 1` gives back frame `i` when all frames have length `size` |
| Codec.RoundTripPrefix | simple-video-encoder/src/main.rs:239-300 | equal-length frames encode, and every prefix of their encoding decodes to the same prefix of the frames |
| Codec.RoundTrip | simple-video-encoder/src/main.rs:239-300 | frames of one common length `L` always encode, and `rle_decode(rle_encode(frames), L)` returns the frames, although encode diffs against original frames and decode adds to decoded ones |
| Codec.TruncatedEntryPanics | simple-video-encoder/src/main.rs:283-287 | once the entries before `i` decode, an entry that is a non-empty encoded delta missing its last byte makes the whole decode panic out of bounds |
| Codec.TruncationDetected | simple-video-encoder/src/main.rs:239-300 | for frames of one common non-zero length, dropping the last byte of any later encoded entry makes decoding panic rather than return a short or garbled frame |
| Codec.BlackToWhitePairs | simple-video-encoder/src/main.rs:254-265 | the delta `255 x 8, 242, 242, 255, 255` encodes as `(8, 255), (2, 242), (2, 255)` |
| Codec.BlackToWhite | simple-video-encoder/src/main.rs:239-300 | a 4 x 2 video of a black frame and then a white frame encodes to `[black, [8, 255, 2, 242, 2, 255]]` and decodes back. The white chroma bytes are 114 and 127, as lines 44-45 and the cast at 185-186 give them. Dropping the last byte of the pairs makes decoding panic |
| Layout.RowStartIsProduct | simple-video-encoder/src/main.rs:182 | the row offset used for the reads is `x * width` |
| Layout.Steps | simple-video-encoder/src/main.rs:180-181 | the number of iterations of `(0..n).step_by(2)`: `(n + 1) / 2` |
| Layout.ReadsInBounds | simple-video-encoder/src/main.rs:182-183 | the largest of the four indices block `br`, `bc` reads, `(x+1)*width+y+1` with `x = 2 br` and `y = 2 bc`, is inside the plane; the other three are smaller |
| Layout.BlockInBounds | simple-video-encoder/src/main.rs:182-186 | one inner iteration does not panic: its reads of both planes and its write index into both quarter planes are in bounds |
| Layout.AllBlocksInBounds | simple-video-encoder/src/main.rs:180-186 | every block the two `step_by(2)` loops visit is in bounds, which is when `uv_downsample` does not panic |
| Layout.ChromaIndex | simple-video-encoder/src/main.rs:185-186 | the write index `x/2*width/2+y/2`, evaluated left to right with truncating division |
| Layout.BlockValue | simple-video-encoder/src/main.rs:182-183 | the byte stored for a block: the averaging function applied to the samples at `x*width+y`, `x*width+y+1`, `(x+1)*width+y` and `(x+1)*width+y+1` |
| Layout.BlockIndexIsChromaIndex | simple-video-encoder/src/main.rs:185-186 | the write index `x/2*width/2+y/2` of block `(x, y) = (2 br, 2 bc)` is `(br * width) / 2 + bc` |
| Layout.HalfRowStart | simple-video-encoder/src/main.rs:185-186 | with an even width, the write index of block row `br` starts at `br * (width / 2)` |
| Layout.RowStartMonotone | simple-video-encoder/src/main.rs:182 | a later row starts past every sample of an earlier one |
| Layout.EarlierRowsStoredBelow | simple-video-encoder/src/main.rs:185-186 | with an even width, the blocks of earlier rows are written below the first index of row `br` |
| Layout.StoreNextBlock | simple-video-encoder/src/main.rs:185-186 | with an even width, writing a block keeps every block written before it and changes nothing from the next block's index on |
| Layout.DownsampleBlock | simple-video-encoder/src/main.rs:182-186 | one inner iteration succeeds exactly when its four reads of both planes and its two writes are in bounds, and then stores the average of the block at its chroma index in each quarter plane and changes nothing else |
| Layout.DownsampleRow | simple-video-encoder/src/main.rs:181-187 | one outer iteration succeeds exactly when all blocks of its row are in bounds; with an even width it keeps earlier rows, stores this row's averages and leaves later entries untouched |
| Layout.UvDownsample | simple-video-encoder/src/main.rs:177-189 | `uv_downsample` panics (out of bounds) exactly when some block reads or writes out of bounds; on success with an even width every block's average is at its chroma index in both quarter planes, and nothing past the last block's entry changes |
| Layout.QuarterPlaneFilled | simple-video-encoder/src/main.rs:204-206 | with even width and height the blocks fill the `width*height/4` quarter planes exactly, from first entry to last |
| Layout.EvenBlockInBounds | simple-video-encoder/src/main.rs:180-186 | with even dimensions, every visited block reads inside a `width*height` plane and writes inside a `width*height/4` quarter plane |
| Layout.EvenPlanesFit | simple-video-encoder/src/main.rs:204-206 | with even dimensions, `uv_downsample` on the buffers `yuv_encode` allocates never goes out of bounds |
| Layout.OddHeightOverruns | simple-video-encoder/src/main.rs:180-182 | with an odd height and a non-zero width, the last sample row reads one row past the plane |
| Layout.OddWidthOverruns | simple-video-encoder/src/main.rs:180-182 | with an odd width and an even, non-zero height, the last block reads one sample past the plane (an odd height is `Layout.OddHeightOverruns`) |
| Layout.DownsampleFitsIff | simple-video-encoder/src/main.rs:204-206 | on the buffers `yuv_encode` allocates, `uv_downsample` stays in bounds if and only if the picture is empty or both dimensions are even |
| Layout.YuvFrame | simple-video-encoder/src/main.rs:208-211 | the frame is the Y plane, then the U plane, then the V plane, each recoverable by slicing at the plane lengths |
| Layout.YuvFrameSize | simple-video-encoder/src/main.rs:204-211 | the length of a frame `yuv_encode` builds: `w*h` Y bytes and two quarter planes of `w*h/4` |
| Layout.YuvVideoRoundTrip | simple-video-encoder/src/main.rs:191-217 | frames built by `yuv_encode` from `w*h` and two `w*h/4` planes all have length `w*h + 2*(w*h/4)`, so they encode, and decoding with that length gives them back |

## Behaviour of the program worth knowing

These facts about the program follow from its code alone:

- **One run across all planes.** `rle_encode` encodes the Y, U and V planes of a frame as one byte sequence. A run can cross a plane boundary, and equal chroma deltas in U and V merge into one pair.
- **White is not neutral chroma.** A white pixel does not get U = V = 128. The coefficients at lines 44-45 give a U sum just under 115 and a V sum just under 128, and the `as u8` casts at 185-186 truncate these to 114 and 127. So a black-to-white step has non-zero chroma deltas (`Codec.BlackToWhite`).
- **Panics, not errors.** Nothing in the codec or in `uv_downsample` returns a recoverable error; only the file I/O functions return `io::Result`. The index and assertion panic sites are listed below; the allocation failures of `Vec::with_capacity` are not modelled (see "## Left out"):
  - line 250: `rle_encode` reads `frames[i-1][j]` out of bounds when a frame is longer than the one before it (`Codec.Encode`, `Codec.DeltaOf`);
  - line 286: `rle_decode` reads a missing value byte after a non-zero lone count (`RunLength.ExpandFails`);
  - line 289: `assert_eq!` fails when an entry expands to a length other than `size` (`Codec.DecodeLengthMismatch`);
  - line 293: `rle_decode` reads `rle_frames[i-1][j]` out of bounds when the previous decoded frame is shorter than `size`, in practice frame 0 (`Codec.DecodeFrame`, `Codec.AddDeltaOf`);
  - lines 182-186: `uv_downsample` reads or writes out of bounds, which for the buffers `yuv_encode` allocates happens exactly when a dimension is odd and neither is zero (`Layout.DownsampleFitsIff`).

  The model records the panic and its kind. Nothing validates dimensions beforehand.
- **Delta reference.** `rle_encode` diffs each frame against the previous original frame (line 250). `rle_decode` adds each delta onto the previous decoded frame (line 293). `Codec.RoundTrip` proves these agree for frames of one common length decoded with that length as `size`. They are not claimed to agree otherwise.
- **No stream parser.** `rle_decode` works on per-frame vectors, and `read_encoded` returns an empty list. Nothing splits a concatenated encoded stream back into frames.

## Left out

- **CLI, file I/O and logging.** `main`, argument parsing, `read_video`, `read_encoded`, `write_file` and `println!` are left out. This includes the end-of-file test of `read_video` at line 135.
- **`main`'s decode path.** It calls `rle_decode` with `size = 0` on an empty list; the model covers `rle_decode` for every `size`.
- **Floating point.** `video_size`, `ColorRGB::to_yuv`, `frame_to_yuv` and the `f32` averaging in `uv_downsample` are left out. The averaging and its `as u8` cast are the `average` parameter of `Layout.UvDownsample`.
- **Per-frame loop of `yuv_encode`.** Only the buffer sizes it allocates (lines 204-205) and the concatenation (208-211) are modelled.
- **Capacity bounds.** `Vec::with_capacity(n)` followed by a loop to `capacity()` is modelled as a loop to `n`. Rust guarantees only that the capacity is at least `n`.
- Layout.UvDownsample: the contents of the quarter planes are stated only for an even width. With an odd width the index `x/2*width/2+y/2` truncates, and blocks of neighbouring rows can share an index. The success condition is still stated for every width.
- Layout.UvDownsample: after a panic the contents of the two arrays are left unspecified. Rust unwinds there, and the program does not use the buffers afterwards.
- **Arrays replaced by sequences.** The `Vec`s that `rle_encode`, `rle_decode` and the delta loops grow with `push` are modelled as sequences that the loops extend. Their buffers are not shared, so aliasing is not modelled.
- **`size` width.** `size` is an unbounded `nat`. The capacity-overflow panic and the allocation failure of `Vec::with_capacity(size)` at lines 282 and 291 are not modelled; for such a `size` the model reports the index or assertion panic that would come next.
- **Older revision.** The root `main.rs` is an older copy with only argument parsing, I/O and the same float conversion. It is not part of this model.
