import opened JavaInt
import opened Frames
import opened Wrappers

/** Why a quantizer cannot be created: its precision lies outside 3 to 15 bits. */
datatype QuantizerError = InvalidPrecision

/**
 * The dynamic quantizer: a stream over another stream that pulls chunks of at
 * most 64 frames and, in every channel whose dynamic range over a chunk needs
 * more than `precision` bits, rounds that channel's samples to the coarser grid
 * the range allows. Quiet passages pass through unchanged.
 */
class QuantizedSampleData {
  const input: SampleData
  const precision: nat

  constructor Init(sampleData: SampleData, precision: nat)
    requires 3 <= precision <= 15
    ensures input == sampleData && this.precision == precision
  {
    input := sampleData;
    this.precision := precision;
  }

  /** The checking constructor: a precision outside 3 to 15 bits is refused. */
  static method Create(sampleData: SampleData, precision: int) returns (r: Result<QuantizedSampleData, QuantizerError>)
    ensures r.Failure? <==> precision < 3 || precision > 15
    ensures r.Success? ==> fresh(r.value) && r.value.input == sampleData && r.value.precision == precision
  {
    if precision < 3 || precision > 15 {
      return Failure(InvalidPrecision);
    }
    var q := new QuantizedSampleData.Init(sampleData, precision);
    return Success(q);
  }

  /** The default quantizer keeps 8 bits. */
  static method CreateDefault(sampleData: SampleData) returns (q: QuantizedSampleData)
    ensures fresh(q) && q.input == sampleData && q.precision == 8
  {
    q := new QuantizedSampleData.Init(sampleData, 8);
  }

  function NumChannels(): nat
  {
    input.NumChannels()
  }

  function SampleRate(): int
  {
    input.SampleRate()
  }

  function Remaining(): int
    reads input.Repr()
  {
    input.Remaining()
  }

  // ---------------------------------------------------------------------------
  // The dynamic range of one channel over a chunk

  /** The smallest sample of a column, the scan starting from 0. */
  static function Lowest(col: seq<Short>): (m: int)
    ensures -32768 <= m <= 0
  {
    if col == [] then 0 else Min(Lowest(col[..|col| - 1]), col[|col| - 1])
  }

  /** The largest sample of a column, the scan starting from 0. */
  static function Highest(col: seq<Short>): (m: int)
    ensures 0 <= m <= 32767
  {
    if col == [] then 0 else var h := Highest(col[..|col| - 1]); if col[|col| - 1] > h then col[|col| - 1] else h
  }

  /** The scan finds a lower bound of the column, which is 0 or one of its samples. */
  static lemma {:induction false} LowestIsMin(col: seq<Short>)
    ensures forall f :: 0 <= f < |col| ==> Lowest(col) <= col[f]
    ensures Lowest(col) == 0 || exists f :: 0 <= f < |col| && col[f] == Lowest(col)
    decreases |col|
  {
    if col != [] {
      var init := col[..|col| - 1];
      LowestIsMin(init);
      assert forall f :: 0 <= f < |init| ==> init[f] == col[f];
    }
  }

  /** The scan finds an upper bound of the column, which is 0 or one of its samples. */
  static lemma {:induction false} HighestIsMax(col: seq<Short>)
    ensures forall f :: 0 <= f < |col| ==> col[f] <= Highest(col)
    ensures Highest(col) == 0 || exists f :: 0 <= f < |col| && col[f] == Highest(col)
    decreases |col|
  {
    if col != [] {
      var init := col[..|col| - 1];
      HighestIsMax(init);
      assert forall f :: 0 <= f < |init| ==> init[f] == col[f];
    }
  }

  /** The number of bits of `v`: how many halvings bring it to 0. */
  static function BitLength(v: nat): nat
  {
    if v == 0 then 0 else 1 + BitLength(v / 2)
  }

  /** `v` has `b` bits exactly when `2^(b - 1) <= v < 2^b`; only 0 has none. */
  static lemma {:induction false} BitLengthBounds(v: nat)
    ensures BitLength(v) == 0 <==> v == 0
    ensures v > 0 ==> Pow2(BitLength(v) - 1) <= v < Pow2(BitLength(v))
  {
    if v > 1 {
      BitLengthBounds(v / 2);
    }
  }

  /** The bits of one channel's dynamic range over a chunk: of `max - min`, both starting from 0. */
  static function ChannelBits(col: seq<Short>): nat
  {
    BitLength(Highest(col) - Lowest(col))
  }

  /** The scan for the minimum and maximum of channel `channel` over `samples` frames at frame `offset`. */
  static method ChannelRange(buf: array<Short>, offset: nat, samples: nat, nc: nat, channel: nat) returns (min: int, max: int)
    requires channel < nc && offset * nc + samples * nc <= buf.Length
    ensures min == Lowest(Column(buf[offset * nc..offset * nc + samples * nc], nc, channel, samples))
    ensures max == Highest(Column(buf[offset * nc..offset * nc + samples * nc], nc, channel, samples))
  {
    ghost var col := Column(buf[offset * nc..offset * nc + samples * nc], nc, channel, samples);
    min, max := 0, 0;
    var idx := offset;
    while idx < offset + samples
      invariant offset <= idx <= offset + samples
      invariant min == Lowest(col[..idx - offset]) && max == Highest(col[..idx - offset])
    {
      FrameSlot(offset, idx - offset, samples, nc, channel);
      var amp := buf[idx * nc + channel];
      assert amp == col[idx - offset];
      assert col[..idx - offset + 1][..idx - offset] == col[..idx - offset];
      if amp < min {
        min := amp;
      }
      if amp > max {
        max := amp;
      }
      idx := idx + 1;
    }
    assert col[..samples] == col;
  }

  /** The loop that counts the bits of a dynamic range by halving it. */
  static method CountBits(range: nat) returns (bits: nat)
    ensures bits == BitLength(range)
  {
    bits := 0;
    var variance := range;
    while variance > 0
      invariant bits + BitLength(variance) == BitLength(range)
    {
      bits := bits + 1;
      variance := variance / 2;
    }
  }

  // ---------------------------------------------------------------------------
  // Rounding to a coarser grid

  /**
   * A sample moved onto the grid of multiples of `2^s` above -32768: the shift
   * right by `s - 1`, the halving that rounds up, and the shift left by `s`.
   * It is the grid point nearest to `v`, a tie going upward.
   */
  static function Rounded(v: Short, s: nat): (r: int)
    requires s >= 1
    ensures -32768 <= r
  {
    var amp := (v + 32768) / Pow2(s - 1);
    RoundedFacts(v + 32768, Pow2(s - 1), amp, amp / 2 + amp % 2);
    (amp / 2 + amp % 2) * Pow2(s) - 32768
  }

  /** The rounding lands on the grid, within half a step of the sample. */
  static lemma RoundedOnGrid(v: Short, s: nat)
    requires s >= 1
    ensures (Rounded(v, s) + 32768) % Pow2(s) == 0
    ensures v - Pow2(s - 1) < Rounded(v, s) <= v + Pow2(s - 1)
  {
    var amp := (v + 32768) / Pow2(s - 1);
    RoundedFacts(v + 32768, Pow2(s - 1), amp, amp / 2 + amp % 2);
  }

  /** The arithmetic of `Rounded` on `u = v + 32768` and the half step `h`. */
  static lemma RoundedFacts(u: nat, h: nat, a: int, amp: int)
    requires h >= 1 && a == u / h && amp == a / 2 + a % 2
    ensures amp >= 0 && (amp * (2 * h)) % (2 * h) == 0
    ensures u - h < amp * (2 * h) <= u + h
  {
    var q := a / 2;
    assert a == 2 * q + a % 2;
    assert a * h <= u < a * h + h;
    assert amp * (2 * h) == (2 * amp) * h;
    if a % 2 == 0 {
      assert 2 * amp == a;
    } else {
      assert 2 * amp == a + 1;
      assert (a + 1) * h == a * h + h;
    }
    MulDiv(amp, 2 * h);
  }

  /** The requantisation as the original writes it: the `(short)` cast wraps the top grid point 32768 to -32768. */
  static function RequantizeAsWritten(v: Short, bits: nat, precision: nat): (r: Short)
    requires precision < bits
    ensures Rounded(v, bits - precision) <= 32767 ==> r == Rounded(v, bits - precision)
  {
    ToShort(Rounded(v, bits - precision))
  }

  /** The requantisation of a sample in a channel whose range needs `bits` bits, held at the top of the range. */
  static function Requantize(v: Short, bits: nat, precision: nat): Short
    requires precision < bits
  {
    Min(Rounded(v, bits - precision), 32767)
  }

  /**
   * The requantisation a chunk applies: the original's wrapping cast when
   * `wraps`, and otherwise the one held at the top of the range.
   */
  static function RequantizeSample(v: Short, bits: nat, precision: nat, wraps: bool): Short
    requires precision < bits
  {
    if wraps then RequantizeAsWritten(v, bits, precision) else Requantize(v, bits, precision)
  }

  /**
   * A requantised sample is within half a step of the original and on the grid
   * of `2^(bits - precision)`, unless held at the top of the range.
   */
  static lemma RequantizeNear(v: Short, bits: nat, precision: nat)
    requires precision < bits
    ensures v - Pow2(bits - precision - 1) < Requantize(v, bits, precision) <= v + Pow2(bits - precision - 1)
    ensures Requantize(v, bits, precision) == 32767 || (Requantize(v, bits, precision) + 32768) % Pow2(bits - precision) == 0
  {
    RoundedOnGrid(v, bits - precision);
  }

  /** One mono frame at full scale: its range needs 15 bits, and the cast turns it into the opposite extreme. */
  static lemma RequantizeWrapsAsWritten()
    ensures ChannelBits([32767]) == 15
    ensures RequantizeAsWritten(32767, 15, 8) == -32768
    ensures Requantize(32767, 15, 8) == 32767
  {
    FullScaleRange();
    FullScaleRounded();
  }

  /**
   * The same frame as a whole chunk: the original's loop, which quantizes
   * through the cast, delivers -32768 for it, where the corrected one holds it
   * at 32767.
   */
  static lemma WrappedChunkAsWritten()
    ensures QuantizeBlock([32767], 1, 1, 8, true) == [-32768]
    ensures QuantizeBlock([32767], 1, 1, 8, false) == [32767]
  {
    var chunk: seq<Short> := [32767];
    assert Column(chunk, 1, 0, 1) == chunk by {
      assert Column(chunk, 1, 0, 1)[0] == chunk[Slot(1, 1, 0, 0)];
    }
    RequantizeWrapsAsWritten();
    QuantizeBlockColumns(chunk, 1, 1, 8, 0, true);
    QuantizeBlockColumns(chunk, 1, 1, 8, 0, false);
    assert QuantizeBlock(chunk, 1, 1, 8, true)[0] == Column(QuantizeBlock(chunk, 1, 1, 8, true), 1, 0, 1)[0];
    assert QuantizeBlock(chunk, 1, 1, 8, false)[0] == Column(QuantizeBlock(chunk, 1, 1, 8, false), 1, 0, 1)[0];
  }

  static lemma FullScaleRange()
    ensures ChannelBits([32767]) == 15
  {
    assert [32767][..0] == [];
    assert Lowest([32767]) == 0;
    assert Highest([32767]) == 32767;
    assert BitLength(32767) == 15;
  }

  static lemma FullScaleRounded()
    ensures Rounded(32767, 7) == 32768
  {
    assert Pow2(6) == 64 && Pow2(7) == 128;
    assert (32767 + 32768) / 64 == 1023;
  }

  // ---------------------------------------------------------------------------
  // Quantizing a chunk

  /** One channel of a chunk after quantisation. */
  static function QuantizeColumn(col: seq<Short>, precision: nat, wraps: bool): (r: seq<Short>)
    ensures |r| == |col|
  {
    var bits := ChannelBits(col);
    if bits > precision then RequantizeAll(col, bits, precision, wraps) else col
  }

  /** Every sample of a channel requantised for a range of `bits` bits, in order. */
  static function RequantizeAll(col: seq<Short>, bits: nat, precision: nat, wraps: bool): (r: seq<Short>)
    requires precision < bits
    ensures |r| == |col|
  {
    if col == [] then [] else [RequantizeSample(col[0], bits, precision, wraps)] + RequantizeAll(col[1..], bits, precision, wraps)
  }

  /** Frame `f` of a requantised channel is frame `f` of the channel, requantised. */
  static lemma {:induction false} RequantizeAllAt(col: seq<Short>, bits: nat, precision: nat, f: nat, wraps: bool)
    requires precision < bits && f < |col|
    ensures RequantizeAll(col, bits, precision, wraps)[f] == RequantizeSample(col[f], bits, precision, wraps)
    decreases |col|
  {
    if f > 0 {
      RequantizeAllAt(col[1..], bits, precision, f - 1, wraps);
    }
  }

  /** A channel whose samples all fit `precision` signed bits passes through unchanged. */
  static lemma QuietColumn(col: seq<Short>, precision: nat, wraps: bool)
    requires precision >= 1
    requires forall f :: 0 <= f < |col| ==> -(Pow2(precision - 1) as int) <= col[f] < Pow2(precision - 1)
    ensures ChannelBits(col) <= precision && QuantizeColumn(col, precision, wraps) == col
  {
    var h := Pow2(precision - 1);
    assert Pow2(precision) == 2 * h;
    assert -(h as int) <= Lowest(col) by {
      LowestIsMin(col);
      if Lowest(col) != 0 {
        var f :| 0 <= f < |col| && col[f] == Lowest(col);
      }
    }
    assert Highest(col) < h by {
      HighestIsMax(col);
      if Highest(col) != 0 {
        var f :| 0 <= f < |col| && col[f] == Highest(col);
      }
    }
    BitsBelow(Highest(col) - Lowest(col), precision);
    assert ChannelBits(col) <= precision;
  }

  /** A value below `2^k` has at most `k` bits. */
  static lemma {:induction false} BitsBelow(v: nat, k: nat)
    requires v < Pow2(k)
    ensures BitLength(v) <= k
  {
    if v > 0 {
      BitsBelow(v / 2, k - 1);
    }
  }

  /** A chunk of `n` frames with every channel quantized on its own range. */
  static ghost function QuantizeBlock(block: seq<Short>, nc: nat, n: nat, precision: nat, wraps: bool): (r: seq<Short>)
    requires |block| == n * nc
    ensures |r| == n * nc
  {
    seq(n * nc, j requires 0 <= j < n * nc =>
      var fc := Decomposed(j, nc, n);
      QuantizeColumn(Column(block, nc, fc.1, n), precision, wraps)[fc.0])
  }

  /** Each channel of a quantized chunk is that channel of the chunk, quantized. */
  static lemma QuantizeBlockColumns(block: seq<Short>, nc: nat, n: nat, precision: nat, c: nat, wraps: bool)
    requires |block| == n * nc && c < nc
    ensures Column(QuantizeBlock(block, nc, n, precision, wraps), nc, c, n) == QuantizeColumn(Column(block, nc, c, n), precision, wraps)
  {
    var r := QuantizeBlock(block, nc, n, precision, wraps);
    forall f | 0 <= f < n
      ensures Column(r, nc, c, n)[f] == QuantizeColumn(Column(block, nc, c, n), precision, wraps)[f]
    {
      var j := Slot(nc, n, f, c);
      SlotDivMod(nc, n, f, c);
      var fc := Decomposed(j, nc, n);
      assert fc == (f, c);
    }
  }

  /** A chunk whose samples all fit `precision` signed bits passes through unchanged. */
  static lemma QuietBlock(block: seq<Short>, nc: nat, n: nat, precision: nat, wraps: bool)
    requires precision >= 1 && |block| == n * nc
    requires forall j :: 0 <= j < |block| ==> -(Pow2(precision - 1) as int) <= block[j] < Pow2(precision - 1)
    ensures QuantizeBlock(block, nc, n, precision, wraps) == block
  {
    var r := QuantizeBlock(block, nc, n, precision, wraps);
    forall c | 0 <= c < nc
      ensures Column(r, nc, c, n) == Column(block, nc, c, n)
    {
      QuietChannel(block, nc, n, precision, c, wraps);
      QuantizeBlockColumns(block, nc, n, precision, c, wraps);
    }
    forall f, c | 0 <= f < n && 0 <= c < nc
      ensures r[Slot(nc, n, f, c)] == block[Slot(nc, n, f, c)]
    {
      assert Column(r, nc, c, n)[f] == Column(block, nc, c, n)[f];
    }
    EqualBySlots(r, block, nc, n);
  }

  /** Each channel of a quiet chunk passes through unchanged. */
  static lemma QuietChannel(block: seq<Short>, nc: nat, n: nat, precision: nat, c: nat, wraps: bool)
    requires precision >= 1 && |block| == n * nc && c < nc
    requires forall j :: 0 <= j < |block| ==> -(Pow2(precision - 1) as int) <= block[j] < Pow2(precision - 1)
    ensures QuantizeColumn(Column(block, nc, c, n), precision, wraps) == Column(block, nc, c, n)
  {
    var col := Column(block, nc, c, n);
    forall f | 0 <= f < |col|
      ensures -(Pow2(precision - 1) as int) <= col[f] < Pow2(precision - 1)
    {
      assert col[f] == block[Slot(nc, n, f, c)];
    }
    QuietColumn(col, precision, wraps);
  }

  // ---------------------------------------------------------------------------
  // Quantizing in place

  /** Requantises channel `channel` of the chunk at frame `offset`, frame by frame. */
  static method RequantizeChannel(outputBuf: array<Short>, offset: nat, samples: nat, nc: nat, channel: nat, bits: nat, precision: nat,
                                  ghost start: seq<Short>, ghost chunk: seq<Short>, ghost block: seq<Short>, wraps: bool)
    requires channel < nc && offset * nc + samples * nc <= |start| && |start| == outputBuf.Length
    requires chunk == start[offset * nc..offset * nc + samples * nc] && |block| == samples * nc && bits > precision
    requires Column(block, nc, channel, samples) == RequantizeAll(Column(chunk, nc, channel, samples), bits, precision, wraps)
    requires outputBuf[..] == Woven(start, offset * nc, block, nc, samples, channel, 0)
    modifies outputBuf
    ensures outputBuf[..] == Woven(start, offset * nc, block, nc, samples, channel, samples)
  {
    ghost var at := offset * nc;
    var idx := offset;
    while idx < offset + samples
      invariant offset <= idx <= offset + samples
      invariant outputBuf[..] == Woven(start, at, block, nc, samples, channel, idx - offset)
    {
      ghost var i := idx - offset;
      FrameSlot(offset, i, samples, nc, channel);
      WovenUnwritten(start, at, block, nc, samples, channel, i, i);
      WovenStep(start, at, block, nc, samples, channel, i);
      assert block[i * nc + channel] == RequantizeSample(outputBuf[idx * nc + channel], bits, precision, wraps) by {
        RequantizeAllAt(Column(chunk, nc, channel, samples), bits, precision, i, wraps);
        assert Column(block, nc, channel, samples)[i] == block[Slot(nc, samples, i, channel)];
        assert Column(chunk, nc, channel, samples)[i] == start[at + Slot(nc, samples, i, channel)];
      }
      outputBuf[idx * nc + channel] := RequantizeSample(outputBuf[idx * nc + channel], bits, precision, wraps);
      idx := idx + 1;
    }
  }

  /** The number of bits the range of channel `channel` of the chunk at frame `offset` needs. */
  static method MeasureChannel(outputBuf: array<Short>, offset: nat, samples: nat, nc: nat, channel: nat) returns (bits: nat)
    requires channel < nc && offset * nc + samples * nc <= outputBuf.Length
    ensures bits == ChannelBits(Column(outputBuf[offset * nc..offset * nc + samples * nc], nc, channel, samples))
  {
    var min, max := ChannelRange(outputBuf, offset, samples, nc, channel);
    ghost var col := Column(outputBuf[offset * nc..offset * nc + samples * nc], nc, channel, samples);
    RangeBits(col, min, max);
    bits := CountBits(max - min);
  }

  static lemma RangeBits(col: seq<Short>, min: int, max: int)
    requires min == Lowest(col) && max == Highest(col)
    ensures min <= max && ChannelBits(col) == BitLength(max - min)
  {
  }

  /** The two outcomes for a quantized channel: requantised on its range, or passed through. */
  static lemma ColumnOutcome(col: seq<Short>, quantized: seq<Short>, precision: nat, bits: nat, wraps: bool)
    requires quantized == QuantizeColumn(col, precision, wraps) && bits == ChannelBits(col)
    ensures bits > precision ==> quantized == RequantizeAll(col, bits, precision, wraps)
    ensures bits <= precision ==> quantized == col
  {
  }

  /** Measures channel `channel` of the chunk and requantises it when its range needs more than `precision` bits. */
  static method QuantizeChannel(outputBuf: array<Short>, offset: nat, samples: nat, nc: nat, channel: nat, precision: nat,
                                ghost start: seq<Short>, ghost chunk: seq<Short>, ghost block: seq<Short>, wraps: bool)
    requires channel < nc && offset * nc + samples * nc <= |start| && |start| == outputBuf.Length
    requires chunk == start[offset * nc..offset * nc + samples * nc] && |block| == samples * nc
    requires Column(block, nc, channel, samples) == QuantizeColumn(Column(chunk, nc, channel, samples), precision, wraps)
    requires outputBuf[..] == Woven(start, offset * nc, block, nc, samples, channel, 0)
    modifies outputBuf
    ensures outputBuf[..] == Woven(start, offset * nc, block, nc, samples, channel, samples)
  {
    ghost var col := Column(chunk, nc, channel, samples);
    WovenColumn(start, offset * nc, block, nc, samples, channel);
    var bits := MeasureChannel(outputBuf, offset, samples, nc, channel);
    ColumnOutcome(col, Column(block, nc, channel, samples), precision, bits, wraps);
    if bits > precision {
      RequantizeChannel(outputBuf, offset, samples, nc, channel, bits, precision, start, chunk, block, wraps);
    } else {
      forall f | 0 <= f < samples
        ensures block[Slot(nc, samples, f, channel)] == start[offset * nc + Slot(nc, samples, f, channel)]
      {
        assert Column(block, nc, channel, samples)[f] == col[f];
      }
      WovenSkip(start, offset * nc, block, nc, samples, channel);
    }
  }

  /** Quantizes, channel by channel and in place, the `samples` frames at frame `offset`. */
  static method QuantizeChunk(outputBuf: array<Short>, offset: nat, samples: nat, nc: nat, precision: nat, wraps: bool)
    requires offset * nc + samples * nc <= outputBuf.Length
    modifies outputBuf
    ensures outputBuf[..] == Splice(old(outputBuf[..]), offset * nc, QuantizeBlock(old(outputBuf[offset * nc..offset * nc + samples * nc]), nc, samples, precision, wraps))
  {
    ghost var start := outputBuf[..];
    ghost var chunk := start[offset * nc..offset * nc + samples * nc];
    ghost var block := QuantizeBlock(chunk, nc, samples, precision, wraps);
    WovenStart(start, offset * nc, block, nc, samples);
    var channel := 0;
    while channel < nc
      invariant channel <= nc
      invariant outputBuf[..] == Woven(start, offset * nc, block, nc, samples, channel, 0)
    {
      QuantizeBlockColumns(chunk, nc, samples, precision, channel, wraps);
      QuantizeChannel(outputBuf, offset, samples, nc, channel, precision, start, chunk, block, wraps);
      WovenNext(start, offset * nc, block, nc, samples, channel);
      channel := channel + 1;
    }
    WovenAll(start, offset * nc, block, nc, samples);
  }

  // ---------------------------------------------------------------------------
  // The stream

  /** The frames pulled in chunks of the given sizes. */
  static function Total(sizes: seq<nat>): nat
  {
    if sizes == [] then 0 else Total(sizes[..|sizes| - 1]) + sizes[|sizes| - 1]
  }

  /** The samples in chunks of the given sizes, of `nc` channels each. */
  static function Span(sizes: seq<nat>, nc: nat): nat
  {
    if sizes == [] then 0 else Span(sizes[..|sizes| - 1], nc) + sizes[|sizes| - 1] * nc
  }

  /** The samples before chunk `i` and chunk `i` itself stay within all the chunks. */
  static lemma {:induction false} SpanPrefix(sizes: seq<nat>, nc: nat, i: nat)
    requires i < |sizes|
    ensures Span(sizes[..i], nc) + sizes[i] * nc <= Span(sizes, nc)
    decreases |sizes|
  {
    var init := sizes[..|sizes| - 1];
    if i < |sizes| - 1 {
      SpanPrefix(init, nc, i);
      assert init[..i] == sizes[..i];
    } else {
      assert init == sizes[..i];
    }
  }

  /** A chunk more adds its frames and its samples. */
  static lemma SpanSnoc(sizes: seq<nat>, k: nat, nc: nat)
    ensures Total(sizes + [k]) == Total(sizes) + k
    ensures Span(sizes + [k], nc) == Span(sizes, nc) + k * nc
  {
    assert (sizes + [k])[..|sizes|] == sizes;
  }

  /** Chunk `i` of the frames `p` handed over in chunks of the given sizes. */
  static ghost function Chunk(p: seq<Short>, nc: nat, sizes: seq<nat>, i: nat): (r: seq<Short>)
    requires i < |sizes| && Span(sizes, nc) <= |p|
    ensures |r| == sizes[i] * nc
  {
    SpanPrefix(sizes, nc, i);
    p[Span(sizes[..i], nc)..Span(sizes[..i], nc) + sizes[i] * nc]
  }

  /** Chunk `i` is the slice of `p` after the chunks before it. */
  static lemma ChunkWithin(p: seq<Short>, nc: nat, sizes: seq<nat>, i: nat)
    requires i < |sizes| && Span(sizes, nc) <= |p|
    ensures Span(sizes[..i], nc) + sizes[i] * nc <= |p|
    ensures Chunk(p, nc, sizes, i) == p[Span(sizes[..i], nc)..Span(sizes[..i], nc) + sizes[i] * nc]
  {
    SpanPrefix(sizes, nc, i);
  }

  /** The earlier chunks stay as they were when one more is taken. */
  static lemma ChunkKept(p: seq<Short>, nc: nat, sizes: seq<nat>, k: nat, i: nat)
    requires Span(sizes, nc) + k * nc <= |p| && i < |sizes|
    ensures Span(sizes + [k], nc) <= |p|
    ensures Chunk(p, nc, sizes + [k], i) == Chunk(p, nc, sizes, i)
  {
    SpanSnoc(sizes, k, nc);
    var longer := sizes + [k];
    assert longer[..i] == sizes[..i] && longer[i] == sizes[i];
    ChunkWithin(p, nc, sizes, i);
    ChunkWithin(p, nc, longer, i);
  }

  /** The chunk taken last is the start of what was left. */
  static lemma ChunkLast(p: seq<Short>, nc: nat, sizes: seq<nat>, k: nat, rest: seq<Short>)
    requires Span(sizes, nc) <= |p| && rest == p[Span(sizes, nc)..] && k * nc <= |rest|
    ensures Span(sizes + [k], nc) <= |p|
    ensures Chunk(p, nc, sizes + [k], |sizes|) == rest[..k * nc]
  {
    SpanSnoc(sizes, k, nc);
    var longer := sizes + [k];
    assert longer[..|sizes|] == sizes && longer[|sizes|] == k;
    ChunkWithin(p, nc, longer, |sizes|);
    var t := Span(sizes, nc);
    assert rest[..k * nc] == p[t..t + k * nc];
  }

  /** The blocks one after another. */
  static function Concat(blocks: seq<seq<Short>>): seq<Short>
  {
    if blocks == [] then [] else Concat(blocks[..|blocks| - 1]) + blocks[|blocks| - 1]
  }

  /** The chunks, one after another, are the first frames of `p`: the chunking loses and reorders nothing. */
  static lemma {:induction false} ConcatChunks(p: seq<Short>, nc: nat, sizes: seq<nat>, chunks: seq<seq<Short>>)
    requires Span(sizes, nc) <= |p| && |chunks| == |sizes|
    requires forall i :: 0 <= i < |sizes| ==> chunks[i] == Chunk(p, nc, sizes, i)
    ensures Concat(chunks) == p[..Span(sizes, nc)]
    decreases |sizes|
  {
    if sizes != [] {
      var init, k := sizes[..|sizes| - 1], sizes[|sizes| - 1];
      assert sizes == init + [k];
      var t := Span(init, nc);
      SpanSnoc(init, k, nc);
      forall i | 0 <= i < |init|
        ensures chunks[..|chunks| - 1][i] == Chunk(p, nc, init, i)
      {
        ChunkKept(p, nc, init, k, i);
      }
      ConcatChunks(p, nc, init, chunks[..|chunks| - 1]);
      ChunkLast(p, nc, init, k, p[t..]);
      assert p[..t] + p[t..t + k * nc] == p[..t + k * nc];
    }
  }

  /** Block `i` is chunk `i` of the frames `p`, quantized, for every chunk of the given sizes. */
  static ghost predicate QuantizedBlocks(p: seq<Short>, nc: nat, precision: nat, sizes: seq<nat>, blocks: seq<seq<Short>>, wraps: bool)
  {
    && Span(sizes, nc) <= |p| && |blocks| == |sizes|
    && forall i {:trigger Chunk(p, nc, sizes, i)} :: 0 <= i < |sizes| ==>
         blocks[i] == QuantizeBlock(Chunk(p, nc, sizes, i), nc, sizes[i], precision, wraps)
  }

  /** A chunk more, taken from what is left of `p` and quantized, extends the blocks. */
  static lemma BlocksSnoc(p: seq<Short>, nc: nat, precision: nat, sizes: seq<nat>, blocks: seq<seq<Short>>, k: nat, rest: seq<Short>, wraps: bool)
    requires QuantizedBlocks(p, nc, precision, sizes, blocks, wraps)
    requires rest == p[Span(sizes, nc)..] && k * nc <= |rest|
    ensures QuantizedBlocks(p, nc, precision, sizes + [k], blocks + [QuantizeBlock(rest[..k * nc], nc, k, precision, wraps)], wraps)
  {
    var b := QuantizeBlock(rest[..k * nc], nc, k, precision, wraps);
    ChunkLast(p, nc, sizes, k, rest);
    forall i | 0 <= i < |sizes| + 1
      ensures (blocks + [b])[i] == QuantizeBlock(Chunk(p, nc, sizes + [k], i), nc, (sizes + [k])[i], precision, wraps)
    {
      if i < |sizes| {
        ChunkKept(p, nc, sizes, k, i);
        assert blocks[i] == QuantizeBlock(Chunk(p, nc, sizes, i), nc, sizes[i], precision, wraps);
      }
    }
  }

  /** Samples that all fit `precision` signed bits come out of the quantizer unchanged, however they were chunked. */
  static lemma QuietBlocks(p: seq<Short>, nc: nat, precision: nat, sizes: seq<nat>, blocks: seq<seq<Short>>, wraps: bool)
    requires precision >= 1 && QuantizedBlocks(p, nc, precision, sizes, blocks, wraps)
    requires forall j :: 0 <= j < |p| ==> -(Pow2(precision - 1) as int) <= p[j] < Pow2(precision - 1)
    ensures Concat(blocks) == p[..Span(sizes, nc)]
  {
    forall i | 0 <= i < |sizes|
      ensures blocks[i] == Chunk(p, nc, sizes, i)
    {
      var chunk := Chunk(p, nc, sizes, i);
      assert blocks[i] == QuantizeBlock(chunk, nc, sizes[i], precision, wraps);
      ChunkWithin(p, nc, sizes, i);
      assert forall j :: 0 <= j < |chunk| ==> -(Pow2(precision - 1) as int) <= chunk[j] < Pow2(precision - 1);
      QuietBlock(chunk, nc, sizes[i], precision, wraps);
    }
    ConcatChunks(p, nc, sizes, blocks);
  }

  /** A block spliced right after another extends it. */
  static lemma SpliceNext(b0: seq<Short>, mid: seq<Short>, after: seq<Short>, at: nat, next: nat, x: seq<Short>, y: seq<Short>)
    requires next == at + |x| && next + |y| <= |b0|
    requires mid == Splice(b0, at, x) && after == Splice(mid, next, y)
    ensures after == Splice(b0, at, x + y)
  {
    SpliceAppend(b0, at, x, y);
  }

  /**
   * The quantizer has delivered, at frame `offset` of what was `b0`, the
   * blocks quantized from the chunks of the given sizes, taking the first
   * `filled` samples of `p` and leaving `rest`; `pos` is the frame after them.
   */
  ghost predicate Delivered(buf: seq<Short>, b0: seq<Short>, offset: nat, nc: nat, p: seq<Short>, sizes: seq<nat>, blocks: seq<seq<Short>>,
                            pos: nat, filled: nat, rest: seq<Short>, wraps: bool)
  {
    && pos == offset + Total(sizes) && filled == Span(sizes, nc) && pos * nc == offset * nc + filled
    && filled <= |p| && rest == p[filled..] && offset * nc + filled <= |b0| && |Concat(blocks)| == filled
    && buf == Splice(b0, offset * nc, Concat(blocks))
    && QuantizedBlocks(p, nc, precision, sizes, blocks, wraps)
    && forall k :: 0 <= k < |sizes| ==> 0 < sizes[k] <= 64
  }

  /** Before any chunk nothing is delivered. */
  lemma NoChunks(b0: seq<Short>, offset: nat, nc: nat, p: seq<Short>, wraps: bool)
    requires offset * nc <= |b0|
    ensures Delivered(b0, b0, offset, nc, p, [], [], offset, 0, p, wraps)
  {
    assert b0[..offset * nc] + [] + b0[offset * nc..] == b0;
  }

  /** A block of `k` frames spliced at frame `pos` extends what is delivered. */
  lemma DeliveredStep(after: seq<Short>, mid: seq<Short>, b0: seq<Short>, offset: nat, nc: nat, p: seq<Short>, sizes: seq<nat>,
                      blocks: seq<seq<Short>>, pos: nat, filled: nat, rest: seq<Short>, k: nat, b: seq<Short>, wraps: bool)
    requires Delivered(mid, b0, offset, nc, p, sizes, blocks, pos, filled, rest, wraps)
    requires 0 < k <= 64 && k * nc <= |rest| && pos * nc + k * nc <= |b0| && |b| == k * nc
    requires after == Splice(mid, pos * nc, b)
    requires QuantizedBlocks(p, nc, precision, sizes + [k], blocks + [b], wraps)
    ensures Delivered(after, b0, offset, nc, p, sizes + [k], blocks + [b], pos + k, filled + k * nc, rest[k * nc..], wraps)
  {
    SpanSnoc(sizes, k, nc);
    MulAdd(pos, k, nc);
    assert (blocks + [b])[..|blocks|] == blocks;
    SpliceNext(b0, mid, after, offset * nc, pos * nc, Concat(blocks), b);
    assert rest[k * nc..] == p[filled + k * nc..];
    assert forall j :: 0 <= j < |sizes| ==> (sizes + [k])[j] == sizes[j];
  }

  /** A pull that delivers nothing leaves what is delivered as it was. */
  lemma DeliveredStall(after: seq<Short>, mid: seq<Short>, b0: seq<Short>, offset: nat, nc: nat, p: seq<Short>, sizes: seq<nat>,
                       blocks: seq<seq<Short>>, pos: nat, filled: nat, rest: seq<Short>, b: seq<Short>, wraps: bool)
    requires Delivered(mid, b0, offset, nc, p, sizes, blocks, pos, filled, rest, wraps)
    requires pos * nc <= |mid| && |b| == 0 && after == Splice(mid, pos * nc, b)
    ensures Delivered(after, b0, offset, nc, p, sizes, blocks, pos, filled, rest, wraps)
  {
    assert after == mid[..pos * nc] + [] + mid[pos * nc..];
    assert mid[..pos * nc] + [] + mid[pos * nc..] == mid;
  }

  /** Quantizes the chunk at frame `pos` in place; the input, which does not hold the buffer, is untouched. */
  method QuantizeBeside(outputBuf: array<Short>, pos: nat, samples: nat, nc: nat, ghost rest: seq<Short>, ghost left: int, wraps: bool)
    requires input.Holds(rest, left) && outputBuf !in input.Repr() && pos * nc + samples * nc <= outputBuf.Length
    modifies outputBuf
    ensures input.Holds(rest, left)
    ensures outputBuf[..] == Splice(old(outputBuf[..]), pos * nc, QuantizeBlock(old(outputBuf[pos * nc..pos * nc + samples * nc]), nc, samples, precision, wraps))
  {
    QuantizeChunk(outputBuf, pos, samples, nc, precision, wraps);
  }

  /**
   * One turn of the loop: asks the input for at most `ask` frames at frame
   * `pos`, quantizes what arrives, and accounts for it.
   */
  method NextChunk(outputBuf: array<Short>, offset: nat, pos: nat, ask: nat, room: nat, nc: nat, ghost b0: seq<Short>, ghost p: seq<Short>,
                   ghost sizes: seq<nat>, ghost blocks: seq<seq<Short>>, ghost rest: seq<Short>, ghost left: int, ghost filled: nat, wraps: bool)
    returns (samples: nat, pos': nat, ghost sizes': seq<nat>, ghost blocks': seq<seq<Short>>, ghost rest': seq<Short>, ghost left': int, ghost filled': nat)
    requires input.Holds(rest, left) && nc == input.NumChannels() > 0 && outputBuf !in input.Repr()
    requires Delivered(outputBuf[..], b0, offset, nc, p, sizes, blocks, pos, filled, rest, wraps)
    requires 0 < ask <= 64 && pos + input.Yield(ask, left) <= room && room * nc <= outputBuf.Length
    modifies input.Repr(), outputBuf
    ensures samples <= ask && samples <= left && Progress(samples, ask, left) && samples == input.Yield(ask, left)
    ensures pos' == pos + samples && left' == left - samples && input.Holds(rest', left')
    ensures sizes' == if samples == 0 then sizes else sizes + [samples]
    ensures Delivered(outputBuf[..], b0, offset, nc, p, sizes', blocks', pos', filled', rest', wraps)
  {
    MulMono(pos + input.Yield(ask, left), room, nc);
    ghost var mid := outputBuf[..];
    samples, rest' := PullChunk(outputBuf, pos, ask, nc, rest, left, wraps);
    ghost var b := QuantizeBlock(rest[..samples * nc], nc, samples, precision, wraps);
    sizes' := if samples == 0 then sizes else sizes + [samples];
    blocks' := if samples == 0 then blocks else blocks + [b];
    pos', left', filled' := pos + samples, left - samples, filled + samples * nc;
    DeliveredNext(outputBuf[..], mid, b0, offset, nc, p, sizes, blocks, pos, filled, rest, samples, b,
                  sizes', blocks', pos', filled', rest', wraps);
  }

  /** A pull of `k` frames, quantized into `b` and spliced at frame `pos`, is accounted for; one of none changes nothing. */
  lemma DeliveredNext(after: seq<Short>, mid: seq<Short>, b0: seq<Short>, offset: nat, nc: nat, p: seq<Short>, sizes: seq<nat>,
                      blocks: seq<seq<Short>>, pos: nat, filled: nat, rest: seq<Short>, k: nat, b: seq<Short>,
                      sizes': seq<nat>, blocks': seq<seq<Short>>, pos': nat, filled': nat, rest': seq<Short>, wraps: bool)
    requires Delivered(mid, b0, offset, nc, p, sizes, blocks, pos, filled, rest, wraps)
    requires k <= 64 && k * nc <= |rest| && pos * nc + k * nc <= |mid|
    requires b == QuantizeBlock(rest[..k * nc], nc, k, precision, wraps) && after == Splice(mid, pos * nc, b)
    requires sizes' == (if k == 0 then sizes else sizes + [k]) && blocks' == (if k == 0 then blocks else blocks + [b])
    requires pos' == pos + k && filled' == filled + k * nc && rest' == rest[k * nc..]
    ensures Delivered(after, b0, offset, nc, p, sizes', blocks', pos', filled', rest', wraps)
  {
    if k == 0 {
      DeliveredStall(after, mid, b0, offset, nc, p, sizes, blocks, pos, filled, rest, b, wraps);
      assert rest[k * nc..] == rest;
    } else {
      BlocksSnoc(p, nc, precision, sizes, blocks, k, rest, wraps);
      DeliveredStep(after, mid, b0, offset, nc, p, sizes, blocks, pos, filled, rest, k, b, wraps);
    }
  }

  /** Pulls the next chunk of at most `ask` frames to frame `pos` and quantizes it in place. */
  method PullChunk(outputBuf: array<Short>, pos: nat, ask: nat, nc: nat, ghost rest: seq<Short>, ghost left: int, wraps: bool)
    returns (samples: nat, ghost rest': seq<Short>)
    requires input.Holds(rest, left) && nc == input.NumChannels() > 0 && outputBuf !in input.Repr()
    requires (pos + input.Yield(ask, left)) * nc <= outputBuf.Length
    modifies input.Repr(), outputBuf
    ensures samples <= ask && samples <= left && Progress(samples, ask, left) && samples == input.Yield(ask, left)
    ensures 0 <= samples * nc <= |rest| && rest' == rest[samples * nc..] && input.Holds(rest', left - samples)
    ensures 0 <= pos * nc && pos * nc + samples * nc <= outputBuf.Length
    ensures outputBuf[..] == Splice(old(outputBuf[..]), pos * nc, QuantizeBlock(rest[..samples * nc], nc, samples, precision, wraps))
  {
    ghost var b0 := outputBuf[..];
    samples, rest' := PullFrames(outputBuf, pos, ask, nc, rest, left);
    SpliceMiddle(b0, pos * nc, rest[..samples * nc]);
    QuantizeBeside(outputBuf, pos, samples, nc, rest', left - samples, wraps);
    SpliceOver(b0, pos * nc, rest[..samples * nc], QuantizeBlock(rest[..samples * nc], nc, samples, precision, wraps));
  }

  /** The pull half of `PullChunk`: the next pending frames, unquantized, at frame `pos`. */
  method PullFrames(outputBuf: array<Short>, pos: nat, ask: nat, nc: nat, ghost rest: seq<Short>, ghost left: int)
    returns (samples: nat, ghost rest': seq<Short>)
    requires input.Holds(rest, left) && nc == input.NumChannels() > 0 && outputBuf !in input.Repr()
    requires (pos + input.Yield(ask, left)) * nc <= outputBuf.Length
    modifies input.Repr(), outputBuf
    ensures samples <= ask && samples <= left && Progress(samples, ask, left) && samples == input.Yield(ask, left)
    ensures 0 <= samples * nc <= |rest| && rest' == rest[samples * nc..] && input.Holds(rest', left - samples)
    ensures 0 <= pos * nc && pos * nc + samples * nc <= outputBuf.Length
    ensures outputBuf[..] == Splice(old(outputBuf[..]), pos * nc, rest[..samples * nc])
  {
    assert (pos + Max(0, input.Yield(ask, input.Remaining()))) * nc <= outputBuf.Length by {
      assert input.Remaining() == left >= 0;
    }
    samples := input.GetSamples(outputBuf, pos, ask);
    rest' := input.Pending();
    assert 0 <= pos * nc && 0 <= samples * nc by {
      MulMono(0, pos, nc);
      MulMono(0, samples, nc);
    }
  }


  /**
   * Delivers at most `count` frames at frame `offset`, quantized chunk by
   * chunk, and returns how many; the input's remaining count drops by exactly
   * that many. Every chunk asks the input for at most what is still wanted, so
   * it delivers all that is wanted, or one frame short when the input hands
   * over frames only in pairs; from any other input the chunks are of 64
   * frames but the last.
   */
  method GetSamples(outputBuf: array<Short>, offset: nat, count: nat)
    returns (n: nat, ghost sizes: seq<nat>, ghost blocks: seq<seq<Short>>, ghost rest: seq<Short>)
    requires input.Valid() && input.Complete() && input.NumChannels() > 0 && outputBuf !in input.Repr()
    requires (offset + Min(count, input.Remaining())) * input.NumChannels() <= outputBuf.Length
    modifies input.Repr(), outputBuf
    ensures n <= count && n <= old(input.Remaining())
    ensures n == Min(count, old(input.Remaining())) || (n + 1 == Min(count, old(input.Remaining())) && old(input.Remaining()) - n >= 2)
    ensures !input.AdpcmData? ==> n == Min(count, old(input.Remaining())) && sizes == ChunkPlan(n)
    ensures input.Holds(rest, old(input.Remaining()) - n)
    ensures Delivered(outputBuf[..], old(outputBuf[..]), offset, input.NumChannels(), old(input.Pending()), sizes, blocks,
                      offset + n, Span(sizes, input.NumChannels()), rest, false)
  {
    var nc := input.NumChannels();
    var todo := count;
    if input.Remaining() < todo {
      todo := input.Remaining();
    }
    ghost var p, rem0 := input.Pending(), input.Remaining();
    assert todo == Min(count, rem0) && input.Holds(p, rem0) && (offset + todo) * nc <= outputBuf.Length;
    var pos;
    pos, sizes, blocks, rest := FillChunks(outputBuf, offset, offset + todo, nc, p, outputBuf[..], rem0);
    n := pos - offset;
  }

  /** An input other than the ADPCM reader hands over all it is asked for while frames last. */
  static lemma WholeChunk(sd: SampleData, ask: int, left: int, samples: int)
    requires ask <= left && ask <= 64 && samples == sd.Yield(ask, left)
    ensures !sd.AdpcmData? ==> samples == ask
  {
  }

  /** The chunks in which `n` frames are asked for: 64 frames at a time, and what is left in the last. */
  static function ChunkPlan(n: nat): seq<nat>
    decreases n
  {
    if n == 0 then [] else [Min(64, n)] + ChunkPlan(n - Min(64, n))
  }

  /** A chunk in front adds its frames to the total. */
  static lemma {:induction false} TotalCons(k: nat, sizes: seq<nat>)
    ensures Total([k] + sizes) == k + Total(sizes)
    decreases |sizes|
  {
    if sizes != [] {
      var init := sizes[..|sizes| - 1];
      assert ([k] + sizes)[..|sizes|] == [k] + init;
      TotalCons(k, init);
    }
  }

  /** The plan asks for exactly `n` frames, in chunks of 1 to 64 frames all of which but the last are of 64. */
  static lemma {:induction false} PlanShape(n: nat)
    ensures Total(ChunkPlan(n)) == n
    ensures forall i :: 0 <= i < |ChunkPlan(n)| ==> 0 < ChunkPlan(n)[i] <= 64
    ensures forall i :: 0 <= i < |ChunkPlan(n)| - 1 ==> ChunkPlan(n)[i] == 64
    decreases n
  {
    if n > 0 {
      var k := Min(64, n);
      PlanShape(n - k);
      TotalCons(k, ChunkPlan(n - k));
      assert ChunkPlan(n) == [k] + ChunkPlan(n - k);
      assert k < 64 ==> ChunkPlan(n - k) == [];
    }
  }

  /** The chunks so far and the plan for the rest of the frames split the plan for them all, unless `sd` is the ADPCM reader. */
  static predicate OnPlan(sd: SampleData, sizes: seq<nat>, n: nat, whole: nat)
  {
    !sd.AdpcmData? ==> sizes + ChunkPlan(n) == ChunkPlan(whole)
  }

  /** Nothing handed over is on the plan. */
  static lemma PlanStart(sd: SampleData, n: nat)
    ensures OnPlan(sd, [], n, n)
  {
    assert [] + ChunkPlan(n) == ChunkPlan(n);
  }

  /** Once no frame is left to ask for, the chunks handed over are the plan. */
  static lemma PlanEnd(sd: SampleData, sizes: seq<nat>, whole: nat)
    requires OnPlan(sd, sizes, 0, whole)
    ensures !sd.AdpcmData? ==> sizes == ChunkPlan(whole)
  {
    assert sizes + [] == sizes;
  }

  /** Handing over what the input yields for the next planned chunk keeps the chunks so far and the plan for the rest a
      split of the whole plan; only the ADPCM reader can stall there. */
  static lemma PlanStep(sd: SampleData, offset: nat, end: nat, pos0: nat, pos: nat, ask: int, left: int, samples: nat,
                        sizes: seq<nat>, sizes': seq<nat>)
    requires offset <= pos0 < end && end - pos0 <= left && ask == Min(64, end - pos0) && OnPlan(sd, sizes, end - pos0, end - offset)
    requires samples <= ask && samples == sd.Yield(ask, left) && pos == pos0 + samples
    requires sizes' == if samples == 0 then sizes else sizes + [samples]
    ensures pos <= end && OnPlan(sd, sizes', end - pos, end - offset)
    ensures samples == 0 ==> sd.AdpcmData?
  {
    WholeChunk(sd, ask, left, samples);
    if !sd.AdpcmData? {
      assert ChunkPlan(end - pos0) == [samples] + ChunkPlan(end - pos);
      assert (sizes + [samples]) + ChunkPlan(end - pos) == sizes + ([samples] + ChunkPlan(end - pos));
    }
  }

  /** The loop of `GetSamples`, filling the frames from `offset` to `end` chunk by chunk. */
  method FillChunks(outputBuf: array<Short>, offset: nat, end: nat, nc: nat, ghost p: seq<Short>, ghost b0: seq<Short>, ghost rem0: int)
    returns (pos: nat, ghost sizes: seq<nat>, ghost blocks: seq<seq<Short>>, ghost rest: seq<Short>)
    requires input.Holds(p, rem0) && nc == input.NumChannels() > 0 && outputBuf !in input.Repr() && outputBuf[..] == b0
    requires offset <= end && end - offset <= rem0 && end * nc <= outputBuf.Length
    modifies input.Repr(), outputBuf
    ensures offset <= pos <= end && input.Holds(rest, rem0 - (pos - offset))
    ensures pos == end || (pos + 1 == end && rem0 - (pos - offset) >= 2)
    ensures !input.AdpcmData? ==> pos == end && sizes == ChunkPlan(end - offset)
    ensures Delivered(outputBuf[..], b0, offset, nc, p, sizes, blocks, pos, Span(sizes, nc), rest, false)
  {
    ghost var left, filled := rem0, 0;
    rest := p;
    MulMono(offset, end, nc);
    NoChunks(b0, offset, nc, p, false);
    sizes, blocks := [], [];
    pos := offset;
    PlanStart(input, end - offset);
    while pos < end
      invariant offset <= pos <= end && left == rem0 - (pos - offset)
      invariant input.Holds(rest, left) && input.NumChannels() == nc
      invariant Delivered(outputBuf[..], b0, offset, nc, p, sizes, blocks, pos, filled, rest, false)
      invariant OnPlan(input, sizes, end - pos, end - offset)
      decreases end - pos
    {
      var samples;
      var ask := Min(64, end - pos);
      ghost var before, pos0, left0 := sizes, pos, left;
      samples, pos, sizes, blocks, rest, left, filled := NextChunk(outputBuf, offset, pos, ask, end, nc, b0, p, sizes, blocks, rest, left, filled, false);
      PlanStep(input, offset, end, pos0, pos, ask, left0, samples, before, sizes);
      if samples == 0 {
        break;
      }
    }
    PlanEnd(input, sizes, end - offset);
  }

  /**
   * The original's loop: every chunk asks the input for 64 frames, however
   * few are still wanted, the loop stops once it has at least what was wanted,
   * and the count wanted is returned. Each chunk is requantized through the
   * wrapping cast. The input loses every frame taken, `TakenAsWritten` of them,
   * and the buffer, which needs room for just those, receives them all.
   */
  method GetSamplesAsWritten(outputBuf: array<Short>, offset: nat, count: nat)
    returns (n: nat, ghost sizes: seq<nat>, ghost blocks: seq<seq<Short>>, ghost rest: seq<Short>)
    requires input.Valid() && input.Complete() && input.NumChannels() > 0 && outputBuf !in input.Repr()
    requires (offset + TakenAsWritten(Min(count, input.Remaining()), input.Remaining())) * input.NumChannels() <= outputBuf.Length
    modifies input.Repr(), outputBuf
    ensures n == Min(count, old(input.Remaining())) && n <= Total(sizes)
    ensures Total(sizes) == TakenAsWritten(n, old(input.Remaining()))
    ensures input.Holds(rest, old(input.Remaining()) - Total(sizes))
    ensures Delivered(outputBuf[..], old(outputBuf[..]), offset, input.NumChannels(), old(input.Pending()), sizes, blocks,
                      offset + Total(sizes), Span(sizes, input.NumChannels()), rest, true)
  {
    var nc := input.NumChannels();
    n := count;
    if input.Remaining() < n {
      n := input.Remaining();
    }
    assert n == Min(count, input.Remaining());
    var pos;
    pos, sizes, blocks, rest := FillAsWritten(outputBuf, offset, n, nc, input.Pending(), outputBuf[..], input.Remaining(), offset + TakenAsWritten(n, input.Remaining()));
  }

  /** What is still wanted once frame `pos` of the `end` wanted is reached. */
  static function Shortfall(pos: nat, end: nat): nat
  {
    if pos < end then end - pos else 0
  }

  /** The `taken` frames so far and those the rest of the loop takes, `wanted` more from `left`, make `whole`. */
  static predicate OnTake(taken: int, wanted: nat, left: int, whole: int)
  {
    wanted <= left && taken + TakenAsWritten(wanted, left) == whole
  }

  /** A chunk of the original's loop, which hands over 64 frames or all that are left, keeps `OnTake`. */
  static lemma TakeStep(offset: nat, end: nat, pos0: nat, pos: nat, left0: int, left: int, samples: nat, whole: int)
    requires offset <= pos0 < end && OnTake(pos0 - offset, Shortfall(pos0, end), left0, whole)
    requires samples == Min(64, left0) && pos == pos0 + samples && left == left0 - samples
    ensures OnTake(pos - offset, Shortfall(pos, end), left, whole)
  {
  }

  /** The loop of `GetSamplesAsWritten`: chunks of 64 frames asked for until the `end` wanted are reached. */
  method FillAsWritten(outputBuf: array<Short>, offset: nat, wanted: nat, nc: nat, ghost p: seq<Short>, ghost b0: seq<Short>, ghost rem0: int,
                      room: nat)
    returns (pos: nat, ghost sizes: seq<nat>, ghost blocks: seq<seq<Short>>, ghost rest: seq<Short>)
    requires input.Holds(p, rem0) && nc == input.NumChannels() > 0 && outputBuf !in input.Repr() && outputBuf[..] == b0
    requires wanted <= rem0 && offset + TakenAsWritten(wanted, rem0) <= room && room * nc <= outputBuf.Length
    modifies input.Repr(), outputBuf
    ensures offset + wanted <= pos && pos == offset + Total(sizes) && input.Holds(rest, rem0 - Total(sizes))
    ensures Total(sizes) == TakenAsWritten(wanted, rem0)
    ensures Delivered(outputBuf[..], b0, offset, nc, p, sizes, blocks, pos, Span(sizes, nc), rest, true)
  {
    var end := offset + wanted;
    ghost var whole := TakenAsWritten(wanted, rem0);
    ghost var left, filled := rem0, 0;
    rest := p;
    MulMono(offset, room, nc);
    NoChunks(b0, offset, nc, p, true);
    sizes, blocks := [], [];
    pos := offset;
    while pos < end
      invariant offset <= pos && left == rem0 - (pos - offset)
      invariant input.Holds(rest, left) && input.NumChannels() == nc
      invariant Delivered(outputBuf[..], b0, offset, nc, p, sizes, blocks, pos, filled, rest, true)
      invariant OnTake(pos - offset, Shortfall(pos, end), left, whole)
      decreases end - pos
    {
      var samples;
      ghost var pos0, left0 := pos, left;
      input.YieldChunk();
      samples, pos, sizes, blocks, rest, left, filled := NextChunk(outputBuf, offset, pos, 64, room, nc, b0, p, sizes, blocks, rest, left, filled, true);
      TakeStep(offset, end, pos0, pos, left0, left, samples, whole);
    }
  }

  /**
   * The frames the original's loop takes from an input that hands over as
   * many as asked while they last: every chunk asks for 64, however few are
   * still wanted, and the loop stops once it has at least what was wanted.
   */
  static function TakenAsWritten(wanted: nat, remaining: int): (taken: nat)
    requires wanted <= remaining
    ensures wanted <= taken <= remaining
    decreases wanted
  {
    if wanted == 0 then 0
    else
      var samples := Min(64, remaining);
      samples + TakenAsWritten(if samples < wanted then wanted - samples else 0, remaining - samples)
  }

  /** Asked for one frame of two, the original reports one frame but takes both from its input. */
  static lemma OverPullAsWritten()
    ensures TakenAsWritten(1, 2) == 2
  {
  }

  /** The slot of frame `i` of a chunk at frame `offset`, as the original indexes it. */
  static lemma FrameSlot(offset: nat, i: nat, n: nat, nc: nat, c: nat)
    requires i < n && c < nc
    ensures (offset + i) * nc + c == offset * nc + Slot(nc, n, i, c)
  {
    MulAdd(offset, i, nc);
  }
}
