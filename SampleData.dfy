import opened JavaInt
import opened Frames

/**
 * A stream of interleaved 16-bit frames, pulled by the caller: one variant per
 * implementation of the stream interface, with the interface's queries and its
 * pull operation dispatched to the implementation.
 */
datatype SampleData =
  | ArrayData(array: ArraySampleData)
  | WavData(wav: WavSampleData)
  | SquareLawData(squareLaw: SquareLawSampleData)
  | EightBitData(eightBit: EightBitSampleData)
  | CompressedData(compressed: CompressedSampleData)
  | AdpcmData(adpcm: AdpcmSampleData)
{
  /** The objects the stream reads and updates. */
  ghost function Repr(): set<object>
  {
    match this
    case ArrayData(a) => {a, a.inputBuf}
    case WavData(w) => {w}
    case SquareLawData(q) => {q}
    case EightBitData(e) => {e}
    case CompressedData(d) => {d, d.channelState}
    case AdpcmData(a) => {a, a.predictors}
  }

  ghost predicate Valid()
    reads Repr()
  {
    match this
    case ArrayData(a) => a.Valid()
    case WavData(w) => w.Valid()
    case SquareLawData(q) => true
    case EightBitData(e) => true
    case CompressedData(d) => d.Valid()
    case AdpcmData(a) => a.Valid()
  }

  function NumChannels(): nat
  {
    match this
    case ArrayData(a) => a.numChannels
    case WavData(w) => w.numChannels
    case SquareLawData(q) => q.numChannels
    case EightBitData(e) => e.numChannels
    case CompressedData(d) => d.numChannels
    case AdpcmData(a) => a.numChannels
  }

  function SampleRate(): int
  {
    match this
    case ArrayData(a) => a.sampleRate
    case WavData(w) => w.sampleRate
    case SquareLawData(q) => q.sampleRate
    case EightBitData(e) => e.sampleRate
    case CompressedData(d) => d.sampleRate
    case AdpcmData(a) => a.sampleRate
  }

  function Remaining(): int
    reads Repr()
  {
    match this
    case ArrayData(a) => a.Remaining()
    case WavData(w) => w.samplesRemaining
    case SquareLawData(q) => q.samplesRemaining
    case EightBitData(e) => e.samplesRemaining
    case CompressedData(d) => d.samplesRemaining
    case AdpcmData(a) => a.samplesRemaining
  }

  /** The stream still holds every frame it has promised, so each pull makes progress. */
  ghost predicate Complete()
    reads Repr()
  {
    match this
    case ArrayData(a) => true
    case WavData(w) => w.Complete()
    case SquareLawData(q) => q.Complete()
    case EightBitData(e) => e.Complete()
    case CompressedData(d) => d.Complete()
    case AdpcmData(a) => a.Complete()
  }

  /** The frames the stream will still deliver, interleaved. */
  ghost function Pending(): (p: seq<Short>)
    requires Valid() && Complete()
    reads Repr()
    ensures Remaining() >= 0 && |p| == Remaining() * NumChannels()
  {
    match this
    case ArrayData(a) => a.Pending()
    case WavData(w) => w.Pending()
    case SquareLawData(q) => q.Pending()
    case EightBitData(e) => e.Pending()
    case CompressedData(d) => d.Pending()
    case AdpcmData(a) => a.Pending()
  }

  /**
   * The frames a pull of `count` delivers from a complete stream with `rem`
   * frames remaining: an array hands over all it is asked for while they last;
   * the byte-stream readers at most a buffer of 65536 frames; the ADPCM reader
   * only whole pairs of those.
   */
  function Yield(count: int, rem: int): int
  {
    match this
    case ArrayData(_) => Min(count, rem)
    case AdpcmData(_) => AdpcmSampleData.EvenFloor(Wanted(count, rem))
    case _ => Wanted(count, rem)
  }

  /**
   * A complete stream's pull makes progress: at least one frame when asked for
   * two or more, or for all that remain (an ADPCM stream, being complete,
   * holds whole pairs), and, asked for a whole buffer, as many as remain up
   * to that.
   */
  lemma YieldProgress(count: int)
    requires Complete()
    ensures Progress(Yield(count, Remaining()), count, Remaining())
  {
  }

  /**
   * Asked for a chunk of 64 frames, a complete stream hands over 64, or all
   * that remain: an ADPCM stream, being complete, holds whole pairs.
   */
  lemma YieldChunk()
    requires Valid() && Complete()
    ensures Remaining() >= 0 && Yield(64, Remaining()) == Min(64, Remaining())
  {
  }

  /** Room for `count` frames past `offset` is room for all a pull of `count` can yield. */
  lemma RoomForYield(offset: nat, count: nat, nc: nat, len: int)
    requires (offset + count) * nc <= len
    ensures (offset + Max(0, Yield(count, Remaining()))) * nc <= len
  {
    MulMono(offset + Max(0, Yield(count, Remaining())), offset + count, nc);
  }

  /** The stream is complete and will deliver exactly the frames `p`, `r` of them. */
  ghost predicate Holds(p: seq<Short>, r: int)
    reads Repr()
  {
    Valid() && Complete() && Pending() == p && Remaining() == r
  }

  /**
   * Places at most `count` frames at frame `offset` of `buffer`, which needs
   * room only for the frames a complete stream would yield, and returns how
   * many it placed; the remaining count drops by exactly that many. A complete
   * stream delivers its pending frames in order, `Yield(count, remaining)` of
   * them, and so makes progress (`YieldProgress`).
   */
  method GetSamples(buffer: array<Short>, offset: nat, count: nat) returns (n: nat)
    requires Valid() && NumChannels() > 0 && buffer !in Repr()
    requires (offset + Max(0, Yield(count, Remaining()))) * NumChannels() <= buffer.Length
    modifies Repr(), buffer
    ensures Valid() && n <= count && (n == 0 || n <= old(Remaining()))
    ensures Remaining() == old(Remaining()) - n
    ensures offset * NumChannels() + n * NumChannels() <= buffer.Length
    ensures old(Complete()) ==> Complete() && n * NumChannels() <= |old(Pending())|
    ensures old(Complete()) ==> buffer[..] == Splice(old(buffer[..]), offset * NumChannels(), old(Pending())[..n * NumChannels()])
    ensures old(Complete()) ==> Pending() == old(Pending())[n * NumChannels()..]
    ensures old(Complete()) ==> n == Yield(count, old(Remaining()))
  {
    ghost var rem := Remaining();
    match this
    case ArrayData(a) =>
      n := a.GetSamples(buffer, offset, count);
      MulAdd(offset, n, a.numChannels);
    case WavData(w) =>
      n := w.GetSamples(buffer, offset, count);
      assert old(w.Complete()) ==> n == Wanted(count, rem);
    case SquareLawData(_) =>
      n := GetCodedSamples(buffer, offset, count);
    case EightBitData(_) =>
      n := GetCodedSamples(buffer, offset, count);
    case CompressedData(_) =>
      n := GetCodedSamples(buffer, offset, count);
    case AdpcmData(a) =>
      n := a.GetSamples(buffer, offset, count);
      assert old(a.Complete()) ==> n == AdpcmSampleData.EvenFloor(Wanted(count, rem));
  }

  /** `GetSamples` for the decoders of one byte per sample: square-law, 8-bit and cube-law. */
  method GetCodedSamples(buffer: array<Short>, offset: nat, count: nat) returns (n: nat)
    requires SquareLawData? || EightBitData? || CompressedData?
    requires Valid() && NumChannels() > 0 && buffer !in Repr()
    requires (offset + Max(0, Yield(count, Remaining()))) * NumChannels() <= buffer.Length
    modifies Repr(), buffer
    ensures Valid() && n <= count && (n == 0 || n <= old(Remaining()))
    ensures Remaining() == old(Remaining()) - n
    ensures offset * NumChannels() + n * NumChannels() <= buffer.Length
    ensures old(Complete()) ==> Complete() && n * NumChannels() <= |old(Pending())|
    ensures old(Complete()) ==> buffer[..] == Splice(old(buffer[..]), offset * NumChannels(), old(Pending())[..n * NumChannels()])
    ensures old(Complete()) ==> Pending() == old(Pending())[n * NumChannels()..]
    ensures old(Complete()) ==> n == Yield(count, old(Remaining()))
  {
    ghost var rem := Remaining();
    match this
    case SquareLawData(q) =>
      n := q.GetSamples(buffer, offset, count);
      assert old(q.Complete()) ==> n == Wanted(count, rem);
    case EightBitData(e) =>
      n := e.GetSamples(buffer, offset, count);
      assert old(e.Complete()) ==> n == Wanted(count, rem);
    case CompressedData(d) =>
      n := d.GetSamples(buffer, offset, count);
      assert old(d.Complete()) ==> n == Wanted(count, rem);
  }

  /**
   * The encoders' pull: asks for a whole buffer of 65536 frames at the start
   * of `buffer`, and so receives the next frames, as many as remain up to that.
   */
  method PullBuffer(buffer: array<Short>) returns (n: nat)
    requires Valid() && Complete() && NumChannels() > 0 && Remaining() > 0 && buffer !in Repr()
    requires buffer.Length == BUF_SAMPLES * NumChannels()
    modifies Repr(), buffer
    ensures Valid() && Complete()
    ensures n == Min(old(Remaining()), BUF_SAMPLES) && 0 < n && Remaining() == old(Remaining()) - n
    ensures n * NumChannels() <= |old(Pending())| && n * NumChannels() <= buffer.Length
    ensures buffer[..] == Splice(old(buffer[..]), 0, old(Pending())[..n * NumChannels()])
    ensures Pending() == old(Pending())[n * NumChannels()..]
  {
    ghost var rem := Remaining();
    YieldProgress(BUF_SAMPLES);
    assert Yield(BUF_SAMPLES, rem) == Min(BUF_SAMPLES, rem) == Min(rem, BUF_SAMPLES);
    RoomForYield(0, BUF_SAMPLES, NumChannels(), buffer.Length);
    n := GetSamples(buffer, 0, BUF_SAMPLES);
  }
}
