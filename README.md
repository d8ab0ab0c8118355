# wavtools: streaming 16-bit audio and its codecs, modelled in Dafny

The model covers the audio core of wavtools. Every class implements one stream
interface, `SampleData`. A stream reports its channel count, its sample rate and
the frames it still has. A caller pulls frames from it into a `short[]` buffer,
at a frame offset, a limited count at a time. The model covers:

- `ArraySampleData`: a stream over an in-memory array. It can also be built by
  draining another stream.
- `WavSampleData`: a WAV reader (RIFF/WAVE parsing and 8-, 16- or 24-bit PCM
  conversion) and the 16-bit WAV writer `writeWav`.
- Three codecs, each an encoder plus a decoding stream:
  - `AdpcmSampleData`: adaptive 4-bit ADPCM;
  - `CompressedSampleData`: the 8-bit differential cube-root codec;
  - `EightBitSampleData`: 8-bit PCM with TPDF dither and noise shaping.
- The older 8-bit square-law decoder from `trunk/` (`SquareLawSampleData`).
- `QuantizedSampleData`: the dynamic quantizer. It lowers the precision of loud
  64-frame chunks.

The Java interface becomes the datatype `SampleData`. It has one variant per
implementation. Its functions (`Valid`, `Remaining`, `Pending`, ...) and its
pull method `GetSamples` dispatch to the variant's class. Each class keeps the
fields the Java object updates, and each pull is a method that updates them.

Each stream has a ghost function `Pending()`: the interleaved frames it will
still deliver. It is defined when the stream is `Complete()`, that is, when its
bytes hold every frame it declares. Every pull is proved to do three things:

- copy a prefix of `Pending()` to the buffer at the frame offset;
- drop that prefix from `Pending()`;
- lower the remaining count by the frames it returns.

Each encoder is proved equal to a per-channel step function run over the
source's pending frames (`Frames.RunAll`). Each decoder is proved to be the
matching step run over the bytes. The partner lemmas then connect the two sides:

- WAV: writing frames and parsing them back returns them unchanged (`WavRoundTrip`).
- ADPCM: `Unpack` inverts `Pack`, and the decoder's predictors track the encoder's.
- Cube-root codec: the decoder's integrator tracks the encoder's.

Java `int` semantics live in module `JavaInt`:

- division truncating toward zero (`TDiv`), while `>>` floors;
- the `(short)` and `(byte)` casts;
- 32-bit wrap-around where it matters.

Interleaved-frame layout and per-channel state machines are in module `Frames`.
Byte streams (`InputStream`, `OutputStream`) are byte sequences. A stream is
modelled by its unread bytes, and a writer returns the bytes it would write.

## Model

| member | source | states |
|---|---|---|
| SampleData.Pending | trunk/wavtools/SampleData.java:10-11 | The frames still to come number exactly the remaining count times the channel count. |
| SampleData.YieldProgress | trunk/wavtools/SampleData.java:12-15 | A complete stream's pull makes progress. Asked for two or more frames, or for all that remain, it returns at least one. Asked for a full buffer, it returns all that remain up to 65536. |
| SampleData.GetSamples | trunk/wavtools/SampleData.java:12-15 | At most `count` frames, for every implementation. The buffer needs room only for the frames a complete stream would yield. The remaining count drops by exactly the number returned. From a complete stream, that number is the variant's `Yield`. The buffer receives the pending prefix at frame `offset`, nothing else changes, and pending loses that prefix. |
| SampleData.YieldChunk | wavtools/AdpcmSampleData.java:101-107 | Asked for 64 frames, every complete stream hands over 64 or all that remain: a complete ADPCM stream holds whole pairs. |
| SampleData.PullBuffer | wavtools/WavSampleData.java:39-40 | A full-buffer pull from a complete stream with frames left returns `min(remaining, 65536) > 0` frames. They are the pending prefix, placed at frame 0. |
| ArraySampleData.constructor | wavtools/ArraySampleData.java:9-14 | The fields are the arguments and the offset is 0. The stream is valid exactly when the array holds `numSamples * numChannels` samples. |
| ArraySampleData.Drain | wavtools/ArraySampleData.java:16-25 | Draining a complete stream yields a fresh array equal to its pending frames. Channels, rate and frame count are copied, and the source is left with 0 remaining. |
| DrainInto | wavtools/ArraySampleData.java:21-24 | The draining loop fills the whole array with the source's pending frames, in order, and empties the source. |
| ArraySampleData.SetOffset | wavtools/ArraySampleData.java:27-29 | The read offset becomes the argument, unchecked. |
| ArraySampleData.Remaining | wavtools/ArraySampleData.java:43-45 | In a valid stream, the remaining count lies between 0 and `numSamples`. |
| ArraySampleData.GetSamples | wavtools/ArraySampleData.java:47-54 | Returns `min(count, remaining)`. Those frames of pending are copied at frame `outputOffset` and the offset advances by them. When the output is another array, pending loses them. |
| ArrayCopy | wavtools/ArraySampleData.java:51 | `System.arraycopy`: the destination range takes the source range as it was before the copy, even when both are the same array. |
| Wanted | wavtools/WavSampleData.java:117-122 | The request after clamping: at most the count, the remaining frames and 65536, and equal to one of them. |
| ReadFully | wavtools/WavSampleData.java:178-185 | `readFully` returns all the bytes wanted, or all that are left when fewer are. |
| WholeFramesDiv | wavtools/WavSampleData.java:123 | `n` whole frames of `bpf` bytes fit in `got` bytes exactly when `n == got / bpf`. |
| PullCounts | wavtools/WavSampleData.java:117-123 | The clamped request, the bytes read and the frames counted in them. The frames are at most the count, 65536 and the remaining frames. |
| MapInto | wavtools/EightBitSampleData.java:87-96 | The per-channel decoding loops leave, from frame `offset`, the decoding of each byte read. |
| RunInto | wavtools/CompressedSampleData.java:85-104 | The per-channel loops taking channel state from frame to frame. The buffer receives the per-channel run of the step from frame `offset`, and the state array holds each channel's final state. |
| JavaInt.TDiv | wavtools/WavSampleData.java:99 | Java's `/`: the magnitude is the quotient of the magnitudes, the sign follows the operands' signs, and the result agrees with `/` on non-negative operands. |
| JavaInt.ToShort | wavtools/QuantizedSampleData.java:76 | The `(short)` cast: congruent modulo 65536, and the identity on values in range. |
| JavaInt.ToSignedByte | wavtools/CompressedSampleData.java:44 | The `(byte)` cast: congruent modulo 256, in [-128, 127], and the identity in range. |
| JavaInt.Signed | wavtools/CompressedSampleData.java:91 | A byte read as signed, in [-128, 127], negative exactly for bytes of 128 and above. |
| JavaInt.SignedOfToSignedByte | wavtools/CompressedSampleData.java:44 | Storing a value as a byte and reading it back signed gives the `(byte)` cast. |
| JavaInt.ToInt32 | wavtools/WavSampleData.java:148-150 | 32-bit wrap-around: in range, and the identity on values already in range. |
| JavaInt.ToInt32Congruent | wavtools/WavSampleData.java:148-150 | The wrapped value is congruent to the value modulo 2^32. |
| JavaInt.Clamp16 | wavtools/AdpcmSampleData.java:125-131 | Saturation to 16 bits: in-range values unchanged, others sent to -32768 or 32767. |
| WavSampleData.ReadByte | wavtools/WavSampleData.java:158 | `read() & 0xFF`: the byte at the cursor, or 0xFF past the end of the stream. |
| WavSampleData.ReadShortAt | wavtools/WavSampleData.java:157-159 | An unsigned little-endian 16-bit field, below 65536. |
| WavSampleData.ReadIntAt | wavtools/WavSampleData.java:148-150 | A little-endian 32-bit field, as a signed int. |
| WavSampleData.Skip | wavtools/WavSampleData.java:85-87 | `skip(n)` moves the cursor forward by `n`, and not at all for a negative `n`. |
| WavSampleData.FindData | wavtools/WavSampleData.java:92-98 | The chunk-skipping scan lands just after a "data" tag, or fails with `NoDataChunk` once it passes the end. |
| WavSampleData.ParseWavTags | wavtools/WavSampleData.java:53-66 | Parsing fails with the matching error unless "RIFF", "WAVE" and "fmt " appear at bytes 0, 8 and 12. |
| WavSampleData.ParseWavFormat | wavtools/WavSampleData.java:74-91 | Parsing fails for more than 24 bits per sample, for a format tag other than 1 or 0xFFFE, and for an extensible header whose sub-format is not the PCM GUID. |
| WavSampleData.ParseWavFields | wavtools/WavSampleData.java:67-73 | A successful parse takes channels, rate and block align from bytes 22, 24 and 32. The data starts after the "data" length field. The frame count is that length divided by the block align, truncating toward zero. Also models WavSampleData.java line 99. |
| WavSampleData.ParseWavSuccess | wavtools/WavSampleData.java:51-101 | The converse: with the tags right, the format accepted, a data chunk found and a non-zero block align, parsing succeeds with exactly those fields. |
| WavSampleData.ReadHeader | wavtools/WavSampleData.java:51-101 | The imperative header reader returns exactly `ParseWav`. |
| WavSampleData.ReadFormatChunk | wavtools/WavSampleData.java:67-88 | The format chunk's fields, whether the format is accepted, and where the next chunk header starts. |
| WavSampleData.ScanChunks | wavtools/WavSampleData.java:92-98 | The chunk-skipping loop returns exactly `FindData`. |
| WavSampleData.Open | wavtools/WavSampleData.java:51-101 | A failed parse gives its error. A successful one gives a fresh valid reader positioned at the data, with the parsed fields. |
| WavSampleData.Span | wavtools/WavSampleData.java:124-143 | `k` samples of a width of 1 to 3 bytes take `k * width` bytes. |
| WavSampleData.SampleAt | wavtools/WavSampleData.java:125-143 | 8-bit: `(b - 128) << 8`. 16-bit: signed high byte and low byte. 24-bit: its two upper bytes, the lowest dropped. |
| WavSampleData.Convert | wavtools/WavSampleData.java:124-143 | The conversion loop gives one sample per slot, each `SampleAt` of its own bytes. |
| WavSampleData.ConvertSplit | wavtools/WavSampleData.java:123-143 | Converting a prefix and then the rest equals converting the whole, so successive pulls deliver consecutive samples. |
| WavSampleData.Pending | wavtools/WavSampleData.java:111-113 | A complete reader still has `samplesRemaining * numChannels` samples. |
| WavSampleData.GetSamples | wavtools/WavSampleData.java:116-146 | Needs room only for the clamped request `min(count, remaining, 65536)`. Clamps to remaining and 65536, reads that many frames' bytes, and counts the whole frames read. It converts them by width (1, 2 or 3 bytes; other widths write nothing) to frame `offset`. From a complete reader: the pending prefix, with pending shrinking by it. |
| WavSampleData.ReadFrames | wavtools/WavSampleData.java:117-123 | The read step consumes `readFully`'s bytes and counts whole frames in them. From a complete reader, they convert to the pending prefix. |
| WavSampleData.ConvertInto | wavtools/WavSampleData.java:125-143 | The conversion loops write exactly `Convert` of the bytes from slot `dst`, and write nothing for an unsupported width. |
| WavSampleData.ShortBytes | wavtools/WavSampleData.java:161-164 | `writeShort` emits two bytes. |
| WavSampleData.IntBytes | wavtools/WavSampleData.java:152-155 | `writeInt` emits four bytes. |
| WavSampleData.WavHeader | wavtools/WavSampleData.java:23-35 | The header `writeWav` emits is 44 bytes. |
| WavSampleData.SampleBytes | wavtools/WavSampleData.java:41-45 | The data writer emits two bytes per sample. |
| WavSampleData.SampleBytesAppend | wavtools/WavSampleData.java:39-47 | The bytes of consecutive buffers concatenate, so writing pull by pull writes all frames. |
| WavSampleData.WriteWav | wavtools/WavSampleData.java:20-48 | The output is the header, sized by the frames remaining before any pull, then every pending sample low byte first. The source is emptied. |
| WavSampleData.PullChunk | wavtools/WavSampleData.java:40-46 | One pass of the writing loop: its bytes followed by the bytes of what is still pending give the bytes of what was pending. |
| WavSampleData.EncodeSamples | wavtools/WavSampleData.java:41-45 | The byte loop writes `SampleBytes` of the first `outputLen / 2` samples. |
| ShortField | wavtools/WavSampleData.java:157-164 | `readShort` after `writeShort` returns a 16-bit field. |
| IntField | wavtools/WavSampleData.java:148-155 | `readInt` after `writeInt` returns any 32-bit value. |
| SampleField | wavtools/WavSampleData.java:43-44 | A 16-bit sample written low byte first and converted back is unchanged. Also models WavSampleData.java line 133. |
| ConvertSampleBytes | wavtools/WavSampleData.java:41-45 | Converting the written data bytes at width 2 returns the samples. Also models WavSampleData.java lines 131-136. |
| HeaderShorts | wavtools/WavSampleData.java:28-33 | The written header reads back as PCM format 1, `nc` channels, block align `2 * nc` and 16 bits. Also models WavSampleData.java lines 68-73. |
| HeaderInts | wavtools/WavSampleData.java:27-35 | The written header reads back with format-chunk length 16, the sample rate, and a data length of `nc * frames * 2`. Also models WavSampleData.java lines 67-99. |
| ParseWavHeader | wavtools/WavSampleData.java:20-101 | Parsing the written header gives `nc` channels, the rate, block align `2 * nc`, data at byte 44, and `frames` frames. |
| WrittenWavReads | trunk/Test.java:19-40 | The written file parses back, and its data converts back to exactly the samples written. |
| WavRoundTrip | trunk/Test.java:19-40 | Writing frames as a WAV file and reading the file back, through `ArraySampleData`, `writeWav`, the WAV reader and the draining constructor, returns the same samples. |
| WriteArray | trunk/Test.java:25 | `writeWav` over an array source gives the header and the array's sample bytes. |
| DrainWav | trunk/Test.java:27 | Draining a complete WAV reader gives its pending frames. |
| AdpcmSampleData.Raised | wavtools/AdpcmSampleData.java:49 | The step is raised to at least 256 and otherwise kept. Also models AdpcmSampleData.java line 121. |
| AdpcmSampleData.QuantizeNearest | wavtools/AdpcmSampleData.java:49-54 | The code is 0 or 15 at the extremes. In between, the code's reconstruction offset is nearest to the prediction error, within half a step. |
| AdpcmSampleData.StepAdapts | wavtools/AdpcmSampleData.java:15-18 | The next step is at least 224. It grows by between 1/8 and 1/2 for outer codes (0-3, 12-15) and shrinks to 7/8 for inner codes. Also models AdpcmSampleData.java line 58. |
| AdpcmSampleData.CodesAreNibbles | wavtools/AdpcmSampleData.java:53-55 | Every code the encoder produces lies in 0..15. |
| AdpcmSampleData.DecoderTracksEncoder | wavtools/AdpcmSampleData.java:44-62 | Decoding the encoder's codes from the same predictor ends in the encoder's predictor. Each decoded sample is the encoder's reconstruction of that sample. Also models AdpcmSampleData.java lines 115-138. |
| AdpcmSampleData.PredictorsAgree | wavtools/AdpcmSampleData.java:56-58 | After any prefix, the decoder's predictor equals the encoder's. Also models AdpcmSampleData.java lines 123-133. |
| AdpcmSampleData.Pack | wavtools/AdpcmSampleData.java:64-69 | Two codes per byte, high nibble first: half as many bytes as codes. |
| AdpcmSampleData.Unpack | wavtools/AdpcmSampleData.java:109-114 | Two codes per byte. |
| AdpcmSampleData.UnpackPack | wavtools/AdpcmSampleData.java:64-69 | Unpacking packed 4-bit codes returns the codes. Also models AdpcmSampleData.java lines 109-114. |
| AdpcmSampleData.PackUnpack | wavtools/AdpcmSampleData.java:64-69 | Packing unpacked bytes returns the bytes. Also models AdpcmSampleData.java lines 109-114. |
| AdpcmSampleData.EvenFloor | wavtools/AdpcmSampleData.java:41-42 | `x & -2`: the even number at or just below `x`. Also models AdpcmSampleData.java line 80. |
| AdpcmSampleData.constructor | wavtools/AdpcmSampleData.java:75-84 | The declared frame count is rounded down to even. The predictors start at zero. |
| AdpcmSampleData.FramesReadWhole | wavtools/AdpcmSampleData.java:107 | `got * 2 / nc` frames are exactly those whose codes all lie in the `got` bytes. Their codes need at most `got` bytes. |
| AdpcmSampleData.OddPullAsWritten | wavtools/AdpcmSampleData.java:107-114 | With 3 channels and 5 bytes left, a pull of 4 counts 3 frames, 9 codes, while the unpacking loop unpacks only 8. |
| AdpcmSampleData.StaleCodeAsWritten | wavtools/AdpcmSampleData.java:109-114 | When the code count is odd, the slot of the last code keeps what the buffer held before the unpacking loop. |
| AdpcmSampleData.PullPairs | wavtools/AdpcmSampleData.java:101-107 | A pull returns at most the count, 65536 and the remaining frames, and its codes lie in the bytes read. From a complete stream it returns exactly the even floor of the request. |
| AdpcmSampleData.Pending | wavtools/AdpcmSampleData.java:94-96 | A complete decoder still has `samplesRemaining * numChannels` samples. |
| AdpcmSampleData.GetSamples | wavtools/AdpcmSampleData.java:100-141 | Needs room only for the even floor of the clamped request. Reads `(count / 2) * nc` bytes of the clamped request and decodes `got * 2 / nc` frames. From frame `offset`, those frames receive the per-channel decoder run over their codes, and the predictors move on. From a complete stream: the even floor of the request, equal to the pending prefix. |
| AdpcmSampleData.ReadFrames | wavtools/AdpcmSampleData.java:101-107 | The read step consumes `readFully`'s bytes, counts `got * 2 / nc` frames and keeps the bytes holding their codes. |
| AdpcmSampleData.DecodeChunk | wavtools/AdpcmSampleData.java:108-138 | Unpacking and the per-channel decoder loops leave the decoded codes from frame `offset` and the final predictors. |
| AdpcmSampleData.UnpackCodes | wavtools/AdpcmSampleData.java:109-114 | Exactly the first `m` codes of the bytes read are unpacked to their slots, the last from its byte's high nibble when `m` is odd. |
| AdpcmSampleData.UnpackInto | wavtools/AdpcmSampleData.java:110-114 | The unpacking loop writes `Unpack` of its bytes from slot `at`. |
| AdpcmSampleData.Encode | wavtools/AdpcmSampleData.java:31-72 | The bytes written unpack to the per-channel encoder run, from zero predictors, over the even floor of the source's frames. The source is emptied. |
| AdpcmSampleData.EncodeBuffer | wavtools/AdpcmSampleData.java:38-71 | One pass of the loop: the bytes written, followed by the coding of what is carried and still pending, give the coding of what was carried and pending. At most one odd frame is carried forward. |
| AdpcmSampleData.EncodeChunk | wavtools/AdpcmSampleData.java:43-69 | The per-channel encoder loops replace the first `m` frames by their codes and move the predictors on. The packed bytes unpack to those codes. |
| AdpcmSampleData.PackCodes | wavtools/AdpcmSampleData.java:64-69 | Packing codes in 0..15 gives bytes that unpack to them. |
| AdpcmSampleData.PackInto | wavtools/AdpcmSampleData.java:64-69 | The packing loop writes `Pack` of the code slots. |
| AdpcmSampleData.MoveCarry | wavtools/AdpcmSampleData.java:39 | The odd frame carried from the last pass moves to the front of the buffer. |
| CompressedSampleData.constructor | wavtools/CompressedSampleData.java:55-62 | The fields are the arguments and every channel's integrator starts at zero. |
| CompressedSampleData.HalleySign | wavtools/CompressedSampleData.java:22-25 | A Halley step from an estimate of the sign of `x` keeps that sign and does not divide by zero. |
| CompressedSampleData.Cbrt | wavtools/CompressedSampleData.java:19-27 | Starting at 15, or -16 for negative `x`, after four Halley steps the root has the sign of `x`, and is 0 for 0. |
| CompressedSampleData.DecodeOfByte | wavtools/CompressedSampleData.java:91-99 | Decoding a byte adds `(a * a * a) >> 5` of its signed value to the unclamped integrator, and outputs the integrator saturated to 16 bits. |
| CompressedSampleData.StepTracks | wavtools/CompressedSampleData.java:43-45 | When the root fits a byte, decoding the emitted byte adds the increment the encoder added. Also models CompressedSampleData.java lines 91-92. |
| CompressedSampleData.DecoderTracksEncoder | wavtools/CompressedSampleData.java:39-48 | Over a channel whose roots all fit a byte, the decoder's integrator equals the encoder's after every sample. Each output is the encoder's integrator saturated. Also models CompressedSampleData.java lines 86-103. |
| CompressedSampleData.IntegratorsAgree | wavtools/CompressedSampleData.java:45 | After any prefix the integrators agree. Also models CompressedSampleData.java line 92. |
| CompressedSampleData.Pending | wavtools/CompressedSampleData.java:72-74 | A complete decoder still has `samplesRemaining * numChannels` samples. |
| CompressedSampleData.GetSamples | wavtools/CompressedSampleData.java:77-107 | Needs room only for the clamped request `min(count, remaining, 65536)`. Reads the clamped request's bytes and counts whole frames. It writes the per-channel integrator run over them from frame `offset` and keeps the integrators. From a complete stream: the pending prefix. |
| CompressedSampleData.ReadFrames | wavtools/CompressedSampleData.java:78-84 | The read step consumes `readFully`'s bytes and keeps the whole frames' bytes. |
| CompressedSampleData.Encode | wavtools/CompressedSampleData.java:30-53 | The bytes written are the per-channel encoder run, from zero integrators, over all the source's frames. |
| CompressedSampleData.EncodeBuffer | wavtools/CompressedSampleData.java:37-50 | One pass: its bytes followed by the coding of what is still pending give the coding of what was pending. |
| CompressedSampleData.EncodeChunk | wavtools/CompressedSampleData.java:38-50 | The per-channel loops over one buffer, continuing from the integrators. |
| EightBitSampleData.constructor | wavtools/EightBitSampleData.java:58-64 | The fields are the arguments. |
| EightBitSampleData.Decode | wavtools/EightBitSampleData.java:92 | `b << 8` of the signed byte: a multiple of 256 whose high byte is the signed byte. |
| EightBitSampleData.DecodeInjective | wavtools/EightBitSampleData.java:92 | Decoding preserves order and distinguishes every byte. |
| EightBitSampleData.Pending | wavtools/EightBitSampleData.java:74-76 | A complete decoder still has `samplesRemaining * numChannels` samples. |
| EightBitSampleData.GetSamples | wavtools/EightBitSampleData.java:79-99 | Needs room only for the clamped request `min(count, remaining, 65536)`. Reads the clamped request's bytes and counts whole frames. It writes the decoded bytes from frame `offset`. From a complete stream: the pending prefix. |
| EightBitSampleData.ReadFrames | wavtools/EightBitSampleData.java:80-86 | The read step consumes `readFully`'s bytes. From a complete stream, the decoded chunk is the pending prefix. |
| EightBitSampleData.Lcg | wavtools/EightBitSampleData.java:34 | The generator step `(rand * 65 + 17) & 0x7FFFFFFF` stays in [0, 2^31). Also models EightBitSampleData.java line 36. |
| EightBitSampleData.Dither | wavtools/EightBitSampleData.java:34-37 | The TPDF dither is the difference of two 6-bit draws, in [-63, 63]. |
| EightBitSampleData.Bit7 | wavtools/EightBitSampleData.java:43 | `in & 0x80` is 0 or 128. |
| EightBitSampleData.RoundHalfUp | wavtools/EightBitSampleData.java:43 | `(in + (in & 0x80)) >> 8` rounds half up, as `(in + 128) >> 8`. |
| EightBitSampleData.Clip8 | wavtools/EightBitSampleData.java:45-46 | Values are clipped to 0..255 and kept in range. |
| EightBitSampleData.Quantize | wavtools/EightBitSampleData.java:43-46 | The quantized level lies in 0..255. |
| EightBitSampleData.QuantizeNearest | wavtools/EightBitSampleData.java:43-46 | The level is the rounded, clipped value. Where no clipping occurs it lies within half a level of the input. |
| EightBitSampleData.CodeRoundTrip | wavtools/EightBitSampleData.java:49 | The byte `out - 128` decodes to `out * 256 - 32768`. Also models EightBitSampleData.java line 92. |
| EightBitSampleData.EncodeStepFeedback | wavtools/EightBitSampleData.java:32-49 | The decoded output is the shaped input plus the new error feedback `s1`. The taps shift and the generator takes two steps. The feedback stays within half a level when not clipped. |
| EightBitSampleData.EncodeBlock | wavtools/EightBitSampleData.java:26-52 | One buffer is encoded per channel from a reset shaper. |
| EightBitSampleData.EncodeSample | wavtools/EightBitSampleData.java:32-50 | One iteration of the encoding loop computes `EncodeStep`. |
| EightBitSampleData.Encode | wavtools/EightBitSampleData.java:19-55 | The bytes written are the source's frames encoded buffer by buffer, the shaper and generator restarting at each pull. |
| EightBitSampleData.EncodeBuffer | wavtools/EightBitSampleData.java:25-53 | One pass: its bytes followed by the chunked encoding of what is still pending give the chunked encoding of what was pending. |
| SquareLawSampleData.constructor | trunk/wavtools/CompressedSampleData.java:44-50 | The fields are the arguments. |
| SquareLawSampleData.DecodeRange | trunk/wavtools/CompressedSampleData.java:78-83 | Decoded samples lie in [-32768, 32258], the extremes reached at bytes 128 and 127. |
| SquareLawSampleData.DecodeMonotone | trunk/wavtools/CompressedSampleData.java:78-83 | Decoding is monotone in the signed byte. |
| SquareLawSampleData.DecodeOdd | trunk/wavtools/CompressedSampleData.java:78-83 | Decoding is odd: opposite bytes give opposite samples. |
| SquareLawSampleData.Pending | trunk/wavtools/CompressedSampleData.java:60-62 | A complete decoder still has `samplesRemaining * numChannels` samples. |
| SquareLawSampleData.GetSamples | trunk/wavtools/CompressedSampleData.java:65-90 | Needs room only for the clamped request `min(count, remaining, 65536)`. Reads the clamped request's bytes and counts whole frames. It writes each byte's square-law sample from frame `offset`. From a complete stream: the pending prefix. |
| QuantizedSampleData.Create | wavtools/QuantizedSampleData.java:21-27 | Fails exactly when the precision lies outside 3..15. Otherwise it wraps the input at that precision. |
| QuantizedSampleData.CreateDefault | wavtools/QuantizedSampleData.java:29-31 | Precision 8. |
| QuantizedSampleData.Lowest | wavtools/QuantizedSampleData.java:54-63 | The running minimum starts at 0, so it lies in [-32768, 0]. |
| QuantizedSampleData.Highest | wavtools/QuantizedSampleData.java:54-63 | The running maximum starts at 0, so it lies in [0, 32767]. |
| QuantizedSampleData.LowestIsMin | wavtools/QuantizedSampleData.java:54-63 | The minimum is at most every sample and is 0 or one of them. |
| QuantizedSampleData.HighestIsMax | wavtools/QuantizedSampleData.java:54-63 | The maximum is at least every sample and is 0 or one of them. |
| QuantizedSampleData.BitLengthBounds | wavtools/QuantizedSampleData.java:65-70 | The bit count of a range is 0 only for 0, and otherwise `2^(bits-1) <= range < 2^bits`. |
| QuantizedSampleData.ChannelRange | wavtools/QuantizedSampleData.java:54-63 | The min/max loop over one channel of the chunk returns `Lowest` and `Highest`. |
| QuantizedSampleData.CountBits | wavtools/QuantizedSampleData.java:65-70 | The shifting loop returns the bit length of the range. |
| QuantizedSampleData.RangeBits | wavtools/QuantizedSampleData.java:54-70 | The chunk's dynamic range in bits is the bit length of max minus min. |
| QuantizedSampleData.RoundedOnGrid | wavtools/QuantizedSampleData.java:74-75 | Rounding lands on a multiple of `2^s` above -32768, within half a step of the sample. |
| QuantizedSampleData.RequantizeAsWritten | wavtools/QuantizedSampleData.java:74-76 | As written, the rounded value is stored through `(short)`: it is unchanged where it fits. |
| QuantizedSampleData.RequantizeWrapsAsWritten | wavtools/QuantizedSampleData.java:74-76 | A chunk holding 32767 alone has a 15-bit range. At precision 8 the written value wraps to -32768, where the saturating version gives 32767. |
| QuantizedSampleData.WrappedChunkAsWritten | wavtools/QuantizedSampleData.java:74-76 | The same lone frame 32767 as a chunk: quantized as written it is delivered as -32768, and the corrected chunk keeps 32767. |
| QuantizedSampleData.RequantizeNear | wavtools/QuantizedSampleData.java:73-77 | The requantized sample is within half a step of the input, and on the step grid unless saturated at 32767. |
| QuantizedSampleData.ColumnOutcome | wavtools/QuantizedSampleData.java:71-78 | A channel of a chunk is requantized exactly when its range exceeds the precision, and is left alone otherwise. |
| QuantizedSampleData.QuietColumn | wavtools/QuantizedSampleData.java:65-71 | Samples that fit `precision` signed bits give a range of at most `precision` bits, and the channel is left unchanged. |
| QuantizedSampleData.QuantizeBlockColumns | wavtools/QuantizedSampleData.java:53-79 | Each channel of a quantized chunk is that channel quantized on its own. |
| QuantizedSampleData.QuietBlock | wavtools/QuantizedSampleData.java:53-79 | A chunk of quiet samples is left unchanged. |
| QuantizedSampleData.QuietBlocks | wavtools/QuantizedSampleData.java:50-81 | A quiet signal passes through the quantizer unchanged, however it is chunked. |
| QuantizedSampleData.MeasureChannel | wavtools/QuantizedSampleData.java:54-70 | The measuring loops return the channel's range in bits. |
| QuantizedSampleData.RequantizeChannel | wavtools/QuantizedSampleData.java:73-77 | The requantizing loop rewrites exactly one channel's slots of the chunk. |
| QuantizedSampleData.QuantizeChannel | wavtools/QuantizedSampleData.java:54-78 | Measuring and, above the precision, requantizing one channel leaves its quantized column in place. |
| QuantizedSampleData.QuantizeChunk | wavtools/QuantizedSampleData.java:53-79 | The channel loop replaces the chunk's frames by their quantized block and touches nothing else. It requantizes through the wrapping cast or the saturating form, as the caller chooses. |
| QuantizedSampleData.PullChunk | wavtools/QuantizedSampleData.java:52-79 | One chunk: the input's yield for the request, quantized in place at frame `pos`. The buffer needs room only for that yield. The input loses those frames. |
| QuantizedSampleData.PlanShape | wavtools/QuantizedSampleData.java:50-52 | The chunk plan asks for exactly `n` frames, in chunks of 1 to 64, all but the last of 64. |
| QuantizedSampleData.WholeChunk | wavtools/QuantizedSampleData.java:52 | Inputs other than the ADPCM reader hand over a whole chunk while frames last. |
| QuantizedSampleData.GetSamples | wavtools/QuantizedSampleData.java:45-83 | Needs room for `min(count, remaining)` frames and asks for that many, pulled 64 at most at a time. Each chunk is quantized per channel, placed from frame `offset`, and taken from the input's pending frames. Over inputs other than ADPCM it delivers all of them, in the chunk plan. |
| QuantizedSampleData.FillChunks | wavtools/QuantizedSampleData.java:49-81 | The chunk loop delivers the quantized chunks consecutively and keeps to the chunk plan. |
| QuantizedSampleData.TakenAsWritten | wavtools/QuantizedSampleData.java:49-81 | As written, whole 64-frame requests take at least the frames wanted and at most the frames remaining. |
| QuantizedSampleData.OverPullAsWritten | wavtools/QuantizedSampleData.java:46-52 | Asking for 1 frame with 2 remaining takes both. |
| QuantizedSampleData.GetSamplesAsWritten | wavtools/QuantizedSampleData.java:45-83 | As written: every request asks 64 frames, each chunk is requantized through the wrapping `(short)` cast, and the count is returned. The buffer needs room for exactly the frames taken. The input loses all of them, `TakenAsWritten` for every complete input, and the buffer receives them all, quantized as written. |
| QuantizedSampleData.FillAsWritten | wavtools/QuantizedSampleData.java:49-81 | As written, the loop's requests of 64 take `TakenAsWritten` frames, at least what is wanted. Every chunk taken is delivered, requantized through the wrapping cast of line 76. |

## Left out

- Streams are byte sequences. `InputStream` is its unread bytes, and a writer returns what it would write. `IOException` is not modelled.
- ReadFully: a read that returns fewer bytes without reaching the end is folded into `readFully`'s loop. The model returns all bytes wanted or all that are left.
- The `main` methods (command-line tools) and `VERSION` strings are not part of this model. Neither are `getArray` (the field is readable) and `NoiseReduction.java`.
- The encoder of `trunk/wavtools/CompressedSampleData.java` (lines 19-41) uses floating-point `Math.sqrt` and is not modelled. Its decoder is `SquareLawSampleData`.
- The interface `SampleData` is a datatype with one variant per implementation, not an open interface.
- QuantizedSampleData is not a variant of `SampleData`, because wrapping a stream would make the datatype depend on heap validity recursively. So `writeWav(new QuantizedSampleData(...))` (QuantizedSampleData.java:94) and a quantizer over a quantizer cannot be stated.
- ArraySampleData.Drain requires a complete source. On a truncated source the Java loop (ArraySampleData.java:22-24) never ends, because pulls return 0 while frames remain.
- WavSampleData.WriteWav requires a complete source, for the same reason (WavSampleData.java:39-47).
- AdpcmSampleData.Encode requires a complete source, for the same reason (AdpcmSampleData.java:38-71).
- CompressedSampleData.Encode requires a complete source, for the same reason (CompressedSampleData.java:36-51).
- EightBitSampleData.Encode requires a complete source, for the same reason (EightBitSampleData.java:24-54).
- QuantizedSampleData.GetSamples requires a complete input. The Java loop spins forever when a pull returns 0 while frames are wanted. The model stops there (see Findings).
- QuantizedSampleData.GetSamples: chunk sizes are stated exactly only for inputs other than ADPCM. Over an ADPCM input, a chunk asked for an odd number of frames delivers one fewer. The result can then be one frame short, as the contract allows.
- WavSampleData.GetSamples requires `numChannels > 0`, as do every other reader's `GetSamples`, the encoders and `WriteWav`. The Java divides by the channel count (WavSampleData.java:125, AdpcmSampleData.java:107, CompressedSampleData.java:84, EightBitSampleData.java:86) and throws `ArithmeticException` for 0.
- WavSampleData.ParseWav returns `ZeroBlockAlign` where the Java throws `ArithmeticException` dividing by a zero block align (WavSampleData.java:99). Its other errors stand for the `IllegalArgumentException`s.
- WavSampleData.FindData returns `NoDataChunk` once the scan passes the end without a "data" tag. The Java loop (WavSampleData.java:93-98) then reads 0xFF bytes, a length of -1 and a negative skip forever, so it never ends.
- WavSampleData.Skip skips exactly the bytes asked for. `InputStream.skip` may skip fewer, and on a file a negative count may move back; the model skips nothing for a negative count (WavSampleData.java:85,87,96).
- WavSampleData.WavHeader computes `nc * frames * 2 + 36` and `nc * rate * 2` unbounded. Its bytes still equal the Java's wrapped 32-bit values, since each byte is taken modulo 256 and shifts floor. `WavRoundTrip` requires `nc * frames * 2 < 2^31`.
- WavSampleData.GetSamples computes `count * bytesPerSample` unbounded. The Java product overflows for a block align of 32768 bytes or more.
- AdpcmSampleData.Advance keeps `pred` and `step` as unbounded integers. The Java `int` arithmetic at AdpcmSampleData.java:56-58 and 123-133 (`pred + ...`, `step * STEP[code]`) can wrap on long runs of extreme codes; that wrap is not modelled.
- CompressedSampleData.Cbrt computes the Halley intermediates (`y * y * y + x + x`, CompressedSampleData.java:22-25) unbounded, where the Java may wrap for `|x| >= 2^30`. The shift `(in - out) << 5` is wrapped to 32 bits by `Root`.
- CompressedSampleData.DecodeStep keeps the decoder's integrator unbounded. The Java `int` accumulator (CompressedSampleData.java:92) can wrap after about 33000 maximal increments in one direction. The same holds for the encoder's accumulator (line 45).
- CompressedSampleData.DecoderTracksEncoder is stated for channels whose every root fits a byte (`Fits`). Where the `(byte)` cast at CompressedSampleData.java:44 truncates a root, the decoder diverges from the encoder, and no property is stated.
- ArraySampleData.constructor accepts an array too short for its frames, as the Java does. Such a stream is not `Valid()`, so pulls from it, where `System.arraycopy` throws, are not modelled.
- ArraySampleData.SetOffset sets any offset, as the Java does (ArraySampleData.java:27-29). An offset outside 0..numSamples makes the stream not `Valid()`, and the pulls where the Java throws are not modelled.
- ArraySampleData.GetSamples: when the output is its own array, the contract states the new array contents and offset but does not restate the pending frames.
- AdpcmSampleData.GetSamples requires the stream to be complete for its pending-frame ensures. On a truncated stream it states the decoded codes of the frames read.

## Findings

| source | as written | input that shows it | evidently intended | confidence | as-written member | corrected member |
|---|---|---|---|---|---|---|
| wavtools/QuantizedSampleData.java:74-76 | The requantized value `(amp << (bits - precision)) - 32768` is stored through a wrapping `(short)` cast. Rounding the loudest samples up gives 32768, which wraps to -32768. | A mono chunk holding the one frame 32767: range 32767, so 15 bits. At precision 8 the stored sample is -32768. | Rounding that reaches 32768 saturates to 32767, so the output stays within half a step of the input. | not executed | QuantizedSampleData.RequantizeAsWritten, QuantizedSampleData.RequantizeWrapsAsWritten, QuantizedSampleData.WrappedChunkAsWritten, QuantizedSampleData.GetSamplesAsWritten | QuantizedSampleData.Requantize, QuantizedSampleData.RequantizeNear |
| wavtools/QuantizedSampleData.java:45-83 | Every chunk asks the input for 64 frames (line 52), whatever is still wanted, and the method returns `count` (line 82). It takes and writes more frames than it reports. A stalled input makes it loop forever. | `count = 1` on an array input with 2 frames left. The input gives up both frames and two frames are written from `offset`, past `offset + count`. The call returns 1, so one frame is lost to the caller. | Ask `min(64, still wanted)` per chunk and stop on a pull of 0. The input then loses exactly the frames delivered, and all chunks but the last are of 64 frames. | not executed | QuantizedSampleData.GetSamplesAsWritten, QuantizedSampleData.TakenAsWritten, QuantizedSampleData.OverPullAsWritten | QuantizedSampleData.GetSamples, QuantizedSampleData.PlanShape |
| wavtools/AdpcmSampleData.java:107-114 | The decoder counts `got * 2 / nc` frames but unpacks only `count * nc / 2` bytes. For an odd number of codes, the last code slot keeps whatever the caller's buffer held, and that value is decoded as a code. | Three channels, 4 frames wanted, 5 bytes left. 3 frames are counted, 9 codes, but only 8 slots are unpacked. | Unpack the last code from the high nibble of the byte after the whole bytes (it was read), so every decoded code comes from the stream. | not executed | AdpcmSampleData.StaleCodeAsWritten, AdpcmSampleData.OddPullAsWritten | AdpcmSampleData.UnpackCodes, AdpcmSampleData.DecodeChunk |
