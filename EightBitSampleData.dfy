import opened JavaInt
import opened Frames

/**
 * The state the noise-shaping encoder keeps for one channel: the dither
 * generator and the quantisation errors of the last three samples, newest first.
 */
datatype Shaper = Shaper(rand: int, s1: int, s2: int, s3: int)

/**
 * 8-bit signed PCM. The decoder reads one byte per sample and scales it to 16
 * bits; the encoder quantises 16-bit samples to 8 bits with triangular dither
 * and three-tap error feedback, restarting every channel at each buffer.
 * The input stream is held as the bytes not yet read, `stream`.
 */
class EightBitSampleData {
  const numChannels: nat
  const sampleRate: int
  var stream: seq<Byte>
  var samplesRemaining: int

  /** Prepares to decode `numSamples` frames from the start of the stream `input`. */
  constructor (input: seq<Byte>, numChannels: nat, sampleRate: int, numSamples: int)
    ensures stream == input && this.numChannels == numChannels && this.sampleRate == sampleRate
    ensures samplesRemaining == numSamples
  {
    this.stream := input;
    this.numChannels := numChannels;
    this.sampleRate := sampleRate;
    this.samplesRemaining := numSamples;
  }

  /** The sample of a byte: its signed value shifted into the top 8 bits. */
  static function Decode(b: Byte): (r: Short)
    ensures r % 256 == 0 && -32768 <= r <= 32512
    ensures r / 256 == Signed(b)
  {
    Signed(b) * 256
  }

  /** Decoding keeps the order of the signed byte values and loses nothing. */
  static lemma DecodeInjective(b: Byte, c: Byte)
    ensures Signed(b) < Signed(c) <==> Decode(b) < Decode(c)
    ensures Decode(b) == Decode(c) <==> b == c
  {
  }

  /** The stream still holds one byte per channel for every frame it declares. */
  ghost predicate Complete()
    reads this
  {
    numChannels > 0 && samplesRemaining >= 0 && samplesRemaining * numChannels <= |stream|
  }

  /** The samples still to be delivered: each declared byte, decoded on its own. */
  ghost function Pending(): (p: seq<Short>)
    requires Complete()
    reads this
    ensures |p| == samplesRemaining * numChannels
  {
    Map(Decode, stream[..samplesRemaining * numChannels])
  }

  /**
   * Reads the bytes of up to `count` frames (no more than remain, nor than
   * 65536), decodes the whole frames read and places them at frame `offset`.
   */
  method GetSamples(outputBuf: array<Short>, offset: nat, count: nat) returns (n: nat)
    requires numChannels > 0 && (offset + Max(0, Wanted(count, samplesRemaining))) * numChannels <= outputBuf.Length
    modifies this, outputBuf
    ensures n <= count && n <= BUF_SAMPLES && (n == 0 || n <= old(samplesRemaining))
    ensures samplesRemaining == old(samplesRemaining) - n
    ensures stream == old(stream)[ReadFully(|old(stream)|, Wanted(count, old(samplesRemaining)) * numChannels)..]
    ensures WholeFrames(n, ReadFully(|old(stream)|, Wanted(count, old(samplesRemaining)) * numChannels), numChannels)
    ensures n * numChannels <= |old(stream)| && offset * numChannels + n * numChannels <= outputBuf.Length
    ensures outputBuf[..] == Splice(old(outputBuf[..]), offset * numChannels, Map(Decode, old(stream)[..n * numChannels]))
    ensures old(Complete()) ==> Complete() && n == Min(count, Min(old(samplesRemaining), BUF_SAMPLES))
    ensures old(Complete()) ==> n * numChannels <= |old(Pending())|
    ensures old(Complete()) ==>
      outputBuf[..] == Splice(old(outputBuf[..]), offset * numChannels, old(Pending())[..n * numChannels])
    ensures old(Complete()) ==> Pending() == old(Pending())[n * numChannels..]
    ensures old(Complete()) ==> Progress(n, count, old(samplesRemaining))
  {
    ghost var room := Max(0, Wanted(count, samplesRemaining));
    var got, chunk;
    n, got, chunk := ReadFrames(count);
    var nc := numChannels;
    MulAdd(offset, n, nc);
    MulMono(offset + n, offset + room, nc);
    MapInto(outputBuf, offset, chunk, nc, n, Decode);
  }

  /**
   * The reading half of a pull: clamps the request to the frames remaining and
   * to the buffer, reads those bytes, and counts the whole frames read; `chunk`
   * holds the bytes of those frames.
   */
  method ReadFrames(count: nat) returns (n: nat, got: nat, chunk: seq<Byte>)
    requires numChannels > 0
    modifies this
    ensures n <= count && n <= BUF_SAMPLES && (n == 0 || n <= old(samplesRemaining))
    ensures got == ReadFully(|old(stream)|, Wanted(count, old(samplesRemaining)) * numChannels)
    ensures WholeFrames(n, got, numChannels) && got <= |old(stream)|
    ensures chunk == old(stream)[..n * numChannels] && stream == old(stream)[got..]
    ensures samplesRemaining == old(samplesRemaining) - n
    ensures old(Complete()) ==> Complete() && n == Min(count, Min(old(samplesRemaining), BUF_SAMPLES))
    ensures old(Complete()) ==> n * numChannels <= |old(Pending())|
    ensures old(Complete()) ==> Map(Decode, chunk) == old(Pending())[..n * numChannels]
    ensures old(Complete()) ==> Pending() == old(Pending())[n * numChannels..]
  {
    ghost var wasComplete := Complete();
    ghost var p0 := if wasComplete then Pending() else [];
    var rem := samplesRemaining;
    var nc := numChannels;
    var rest := stream;
    var want;
    want, got, n := PullCounts(|rest|, rem, count, nc);
    chunk := rest[..n * nc];
    samplesRemaining := rem - n;
    stream := rest[got..];
    if wasComplete {
      BytePull(Decode, rest, nc, rem, want, got, n);
      assert samplesRemaining == rem - n && numChannels == nc && |stream| == |rest| - got;
      assert Complete();
    }
  }

  /** The state every channel starts from, at every buffer. */
  static function Start(): Shaper
  {
    Shaper(0, 0, 0, 0)
  }

  /**
   * One step of the dither generator, `(rand * 65 + 17) & 0x7FFFFFFF` in 32-bit
   * arithmetic: the mask keeps the low 31 bits, which the 32-bit wrap-around
   * does not disturb, so the step is exact modulo 2^31.
   */
  static function Lcg(rand: int): (r: int)
    ensures 0 <= r < 0x8000_0000
  {
    (rand * 65 + 17) % 0x8000_0000
  }

  /** The triangular dither drawn from two generator steps after `rand`: a difference of two 6-bit values. */
  static function Dither(rand: int): (d: int)
    ensures -63 <= d <= 63
  {
    var r1 := Lcg(rand);
    var r2 := Lcg(r1);
    r1 / 0x200_0000 - r2 / 0x200_0000
  }

  /** `v & 0x80`: bit 7 of `v` in two's complement, whatever the sign of `v`. */
  static function Bit7(v: int): (r: int)
    ensures r == 0 || r == 128
  {
    if v % 256 >= 128 then 128 else 0
  }

  /** The output code limited to the 8-bit range. */
  static function Clip8(q: int): (r: int)
    ensures 0 <= r <= 255
    ensures 0 <= q <= 255 ==> r == q
    ensures q < 0 ==> r == 0
    ensures q > 255 ==> r == 255
  {
    if q < 0 then 0 else if q > 255 then 255 else q
  }

  /** The unsigned input with the shaped error subtracted and the dither added. */
  static function Shaped(st: Shaper, x: int): int
  {
    x + 32768 - TDiv(st.s1 * 13 - st.s2 * 8 + st.s3, 8) + Dither(st.rand)
  }

  /** `(v + (v & 0x80)) >> 8`, clipped: the nearest 8-bit code to `v / 256`. */
  static function Quantize(v: int): (q: int)
    ensures 0 <= q <= 255
  {
    Clip8((v + Bit7(v)) / 256)
  }

  /**
   * The encoder's step for one sample of one channel: the generator advances
   * twice, the errors shift along, the newest error is what the code's value
   * overshoots the shaped input by, and the byte is the code made signed.
   */
  static function EncodeStep(st: Shaper, x: Short): (Shaper, Byte)
  {
    var v := Shaped(st, x);
    var out := Quantize(v);
    (Shaper(Lcg(Lcg(st.rand)), out * 256 - v, st.s1, st.s2), ByteOf(out - 128))
  }

  /** Adding bit 7 before the shift rounds half up: it is the same as adding 128. */
  static lemma RoundHalfUp(v: int)
    ensures (v + Bit7(v)) / 256 == (v + 128) / 256
  {
    var k, r := v / 256, v % 256;
    assert v == 256 * k + r;
    if r >= 128 {
      assert 256 * (k + 1) <= v + 128 < 256 * (k + 2);
    } else {
      assert 256 * k <= v + 128 < 256 * (k + 1);
    }
  }

  /**
   * Quantisation picks the nearest code, ties going up, and saturates outside
   * the codes' range: within it the code's value exceeds the input by no less
   * than -127 and no more than 128.
   */
  static lemma QuantizeNearest(v: int)
    ensures Quantize(v) == Clip8((v + 128) / 256)
    ensures -128 <= v < 65408 ==> -127 <= Quantize(v) * 256 - v <= 128
    ensures v < -128 ==> Quantize(v) == 0
    ensures v >= 65408 ==> Quantize(v) == 255
  {
    RoundHalfUp(v);
    var q := (v + 128) / 256;
    assert q * 256 <= v + 128 < q * 256 + 256;
  }

  /** The code `q` is written as the byte of `q - 128`, which decodes to `q` scaled by 256, less 32768. */
  static lemma CodeRoundTrip(q: int)
    requires 0 <= q <= 255
    ensures Signed(ByteOf(q - 128)) == q - 128
    ensures Decode(ByteOf(q - 128)) == q * 256 - 32768
  {
  }

  /**
   * Error feedback: the decoded output is the shaped input plus the newest
   * error the step records, the older errors move down one place, and the
   * recorded error is within a code step whenever the code did not saturate.
   */
  static lemma EncodeStepFeedback(st: Shaper, x: Short)
    ensures Decode(EncodeStep(st, x).1) == Shaped(st, x) - 32768 + EncodeStep(st, x).0.s1
    ensures EncodeStep(st, x).0.s2 == st.s1 && EncodeStep(st, x).0.s3 == st.s2
    ensures EncodeStep(st, x).0.rand == Lcg(Lcg(st.rand))
    ensures -128 <= Shaped(st, x) < 65408 ==> -127 <= EncodeStep(st, x).0.s1 <= 128
  {
    var v := Shaped(st, x);
    QuantizeNearest(v);
    CodeRoundTrip(Quantize(v));
  }

  /**
   * The encoding loops for one buffer of `count` frames: each channel in turn,
   * from the start state, through its samples in order, nothing else written.
   */
  static method EncodeBlock(inputBuf: array<Short>, outputBuf: array<Byte>, count: nat, numChannels: nat)
    requires count * numChannels <= inputBuf.Length && count * numChannels <= outputBuf.Length
    modifies outputBuf
    ensures outputBuf[..] == Splice(old(outputBuf[..]), 0, RunAll(EncodeStep, Fill(Start(), numChannels), inputBuf[..], numChannels, count))
  {
    ghost var start := outputBuf[..];
    ghost var xs := inputBuf[..];
    ghost var states := Fill(Start(), numChannels);
    ghost var block := RunAll(EncodeStep, states, xs, numChannels, count);
    WovenStart(start, 0, block, numChannels, count);
    var channel := 0;
    while channel < numChannels
      invariant channel <= numChannels
      invariant outputBuf[..] == Woven(start, 0, block, numChannels, count, channel, 0)
    {
      var shaper := Start();
      var bufferIdx := channel;
      var bufferEnd := count * numChannels + channel;
      ghost var i: nat := 0;
      while bufferIdx < bufferEnd
        invariant i <= count && bufferIdx == i * numChannels + channel
        invariant shaper == Final(EncodeStep, Start(), Column(xs, numChannels, channel, count)[..i])
        invariant outputBuf[..] == Woven(start, 0, block, numChannels, count, channel, i)
        decreases bufferEnd - bufferIdx
      {
        MulLess(i, count, numChannels);
        RunAllNext(EncodeStep, states, xs, numChannels, count, i, channel);
        WovenStep(start, 0, block, numChannels, count, channel, i);
        var code;
        shaper, code := EncodeSample(shaper, inputBuf[bufferIdx]);
        outputBuf[bufferIdx] := code;
        MulAdd(i, 1, numChannels);
        bufferIdx := bufferIdx + numChannels;
        i := i + 1;
      }
      assert i == count by {
        if i < count {
          MulMono(i + 1, count, numChannels);
          MulAdd(i, 1, numChannels);
        }
      }
      WovenNext(start, 0, block, numChannels, count, channel);
      channel := channel + 1;
    }
    WovenAll(start, 0, block, numChannels, count);
  }

  /**
   * The body of the encoding loop for one sample `x`: dither, shape, round,
   * clip and feed the error back, on the state of its channel.
   */
  static method EncodeSample(shaper: Shaper, x: Short) returns (next: Shaper, code: Byte)
    ensures (next, code) == EncodeStep(shaper, x)
  {
    var rand, s1, s2, s3 := shaper.rand, shaper.s1, shaper.s2, shaper.s3;
    var inSample := x + 32768;
    rand := Lcg(rand);
    var dither := rand / 0x200_0000;
    rand := Lcg(rand);
    dither := dither - rand / 0x200_0000;
    inSample := inSample - TDiv(s1 * 13 - s2 * 8 + s3, 8) + dither;
    assert dither == Dither(shaper.rand) && inSample == Shaped(shaper, x);
    s3 := s2;
    s2 := s1;
    var out := (inSample + Bit7(inSample)) / 256;
    if out < 0 {
      out := 0;
    }
    if out > 255 {
      out := 255;
    }
    assert out == Quantize(inSample);
    s1 := out * 256 - inSample;
    next, code := Shaper(rand, s1, s2, s3), ByteOf(out - 128);
  }

  /**
   * Encodes every frame `sampleData` still holds, a buffer of at most 65536
   * frames at a time, and returns the bytes written to the output stream.
   */
  static method Encode(sampleData: SampleData) returns (written: seq<Byte>)
    requires sampleData.Valid() && sampleData.Complete() && sampleData.NumChannels() > 0
    modifies sampleData.Repr()
    ensures sampleData.Valid() && sampleData.Complete() && sampleData.Remaining() == 0
    ensures written == Chunked(EncodeStep, Start(), old(sampleData.Pending()), sampleData.NumChannels(), old(sampleData.Remaining()))
  {
    var numChannels := sampleData.NumChannels();
    var inputBuf := new Short[BUF_SAMPLES * numChannels];
    var outputBuf := new Byte[BUF_SAMPLES * numChannels];
    ghost var all := sampleData.Pending();
    ghost var total: nat := sampleData.Remaining();
    written := [];
    while sampleData.Remaining() > 0
      invariant sampleData.Valid() && sampleData.Complete() && sampleData.Remaining() >= 0
      invariant inputBuf !in sampleData.Repr() && outputBuf !in sampleData.Repr()
      invariant written + Chunked(EncodeStep, Start(), sampleData.Pending(), numChannels, sampleData.Remaining())
             == Chunked(EncodeStep, Start(), all, numChannels, total)
      decreases sampleData.Remaining()
    {
      ghost var before := written;
      var chunk := EncodeBuffer(sampleData, inputBuf, outputBuf);
      written := written + chunk;
      AppendAssoc(before, chunk, Chunked(EncodeStep, Start(), sampleData.Pending(), numChannels, sampleData.Remaining()));
    }
  }

  /**
   * One round of the encoding loop: pulls up to 65536 frames into `inputBuf`,
   * encodes them into `outputBuf` and returns the bytes of those frames.
   */
  static method EncodeBuffer(sampleData: SampleData, inputBuf: array<Short>, outputBuf: array<Byte>) returns (chunk: seq<Byte>)
    requires sampleData.Valid() && sampleData.Complete() && sampleData.Remaining() > 0 && sampleData.NumChannels() > 0
    requires inputBuf.Length == BUF_SAMPLES * sampleData.NumChannels() && outputBuf.Length == BUF_SAMPLES * sampleData.NumChannels()
    requires inputBuf !in sampleData.Repr() && outputBuf !in sampleData.Repr()
    modifies sampleData.Repr(), inputBuf, outputBuf
    ensures sampleData.Valid() && sampleData.Complete() && 0 <= sampleData.Remaining() < old(sampleData.Remaining())
    ensures chunk + Chunked(EncodeStep, Start(), sampleData.Pending(), sampleData.NumChannels(), sampleData.Remaining())
         == Chunked(EncodeStep, Start(), old(sampleData.Pending()), sampleData.NumChannels(), old(sampleData.Remaining()))
  {
    var numChannels := sampleData.NumChannels();
    ghost var p := sampleData.Pending();
    ghost var rem: nat := sampleData.Remaining();
    ghost var before := inputBuf[..];
    var count := sampleData.PullBuffer(inputBuf);
    ghost var out0 := outputBuf[..];
    ghost var left := sampleData.Pending();
    ghost var r := sampleData.Remaining();
    assert sampleData.Holds(left, r);
    EncodeBlock(inputBuf, outputBuf, count, numChannels);
    assert sampleData.Holds(left, r);
    ChunkedPull(EncodeStep, Start(), p, rem, numChannels, count, before, inputBuf[..], out0, outputBuf[..]);
    chunk := outputBuf[..count * numChannels];
    assert left == p[count * numChannels..];
    assert chunk + Chunked(EncodeStep, Start(), left, numChannels, rem - count) == Chunked(EncodeStep, Start(), p, numChannels, rem);
    assert sampleData.Remaining() == rem - count && sampleData.Pending() == left && sampleData.NumChannels() == numChannels;
  }
}
