import opened JavaInt
import opened Frames

/**
 * The 8-bit differential companding codec. Each channel keeps an integrator:
 * the encoder sends the cube root of 32 times the distance from the integrator
 * to the next sample, and both sides add the code's cube over 32 to it. The
 * decoder's integrators persist across pulls in `channelState`; the input
 * stream is held as the bytes not yet read, `stream`.
 */
class CompressedSampleData {
  const numChannels: nat
  const sampleRate: int
  var stream: seq<Byte>
  var samplesRemaining: int
  const channelState: array<int>

  /** Prepares to decode `numSamples` frames from `input`, every integrator at zero. */
  constructor (input: seq<Byte>, numChannels: nat, sampleRate: int, numSamples: int)
    ensures stream == input && this.numChannels == numChannels && this.sampleRate == sampleRate
    ensures samplesRemaining == numSamples
    ensures Valid() && fresh(channelState) && channelState[..] == Fill(0, numChannels)
  {
    this.stream := input;
    this.numChannels := numChannels;
    this.sampleRate := sampleRate;
    this.samplesRemaining := numSamples;
    this.channelState := new int[numChannels](c => 0);
  }

  ghost predicate Valid()
    reads this
  {
    channelState.Length == numChannels
  }

  // ----- The cube root -----

  /** The quotient of one Halley step for the cube root of `x` from `y`, truncated as Java divides. */
  static function Halley(y: int, x: int): int
    requires 2 * y * y * y + x != 0
  {
    TDiv(y * (y * y * y + x + x), 2 * y * y * y + x)
  }

  /**
   * A Halley step keeps the sign of the estimate when `x` has it: from a
   * positive estimate with `x > 0` it stays at least 1, with `x == 0` it halves,
   * and from a negative estimate with `x < 0` it stays at most -1. In each case
   * the divisor is not zero.
   */
  static lemma HalleySign(y: int, x: int)
    requires (x >= 0 && y >= 1) || (x < 0 && y <= -1)
    ensures 2 * y * y * y + x != 0
    ensures x > 0 ==> Halley(y, x) >= 1
    ensures x == 0 ==> Halley(y, x) == y / 2
    ensures x < 0 ==> Halley(y, x) <= -1
  {
    var u: nat, v: nat := Abs(y), Abs(x);
    var c := CubeFacts(u);
    HalleyMagnitude(u, c, v);
    var num, den := HalleyTerms(y, x, u, v, c);
    if y >= 1 {
      assert TDiv(num, den) == num / den;
    } else {
      assert TDiv(num, -(den as int)) == -((num / den) as int);
    }
  }

  /** The dividend and divisor of a Halley step, as magnitudes and signs. */
  static lemma HalleyTerms(y: int, x: int, u: nat, v: nat, c: nat) returns (num: nat, den: nat)
    requires u >= 1 && c == u * u * u && (y == u || y == -(u as int)) && (x == v || x == -(v as int)) && (y == u <==> x >= 0)
    ensures num == u * (c + v + v) && den == 2 * c + v
    ensures y * (y * y * y + x + x) == num
    ensures 2 * y * y * y + x == (if y >= 1 then den else -(den as int))
  {
    MulAssoc(2, y, y);
    MulAssoc(2, y * y, y);
    num, den := u * (c + v + v), 2 * c + v;
    if y < 0 {
      NegCube(y, u);
      NegProduct(u, c + v + v);
    }
  }

  /** The cube of a positive `u`: at least 1, exactly 1 for `u == 1`, and at least twice itself over `u` otherwise. */
  static lemma CubeFacts(u: nat) returns (c: nat)
    requires u >= 1
    ensures c == u * u * u && c >= 1 && (u == 1 ==> c == 1) && (u >= 2 ==> u * c >= 2 * c)
  {
    MulMono(1, u, u);
    MulMono(1, u * u, u);
    c := u * u * u;
    if u >= 2 {
      MulMono(2, u, c);
    }
  }

  static lemma NegCube(y: int, u: nat)
    requires y == -(u as int)
    ensures y * y * y == -(u * u * u)
  {
  }

  static lemma NegProduct(u: nat, w: int)
    ensures (-(u as int)) * (-w) == u * w
  {
  }

  /**
   * The Halley quotient on magnitudes, `u (u^3 + 2v) / (2u^3 + v)` with `c` the
   * cube of `u`: at least 1 when `v >= 1`, and `u / 2` when `v == 0`.
   */
  static lemma HalleyMagnitude(u: nat, c: nat, v: nat)
    requires u >= 1 && c >= 1 && (u == 1 ==> c == 1) && (u >= 2 ==> u * c >= 2 * c)
    ensures 2 * c + v > 0
    ensures v >= 1 ==> u * (c + v + v) / (2 * c + v) >= 1
    ensures v == 0 ==> u * (c + v + v) / (2 * c + v) == u / 2
  {
    if v == 0 {
      HalveCube(u, c);
    } else {
      HalleyGrows(u, c, v);
      DivAtLeastOne(u * (c + v + v), 2 * c + v);
    }
  }

  /** With `x == 0` a step halves the estimate: `u * c / (2 * c) == u / 2`. */
  static lemma HalveCube(u: nat, c: nat)
    requires c >= 1
    ensures u * (c + 0 + 0) / (2 * c + 0) == u / 2
  {
    var q, r := u / 2, u % 2;
    assert u * c == 2 * c * q + r * c by {
      assert u == 2 * q + r;
      MulAdd(2 * q, r, c);
    }
    DivOfSplit(u * c, 2 * c, q, r * c);
  }

  /** With `x >= 1` the dividend is at least the divisor. */
  static lemma HalleyGrows(u: nat, c: nat, v: nat)
    requires u >= 1 && c >= 1 && v >= 1 && (u == 1 ==> c == 1) && (u >= 2 ==> u * c >= 2 * c)
    ensures u * (c + v + v) >= 2 * c + v
  {
    MulAdd(u, 0, c);
    assert u * (c + v + v) == u * c + u * v + u * v;
    MulMono(1, u, v);
  }

  static lemma DivAtLeastOne(a: nat, b: nat)
    requires 0 < b <= a
    ensures a / b >= 1
  {
  }

  /** Euclidean division is determined by a quotient and remainder. */
  static lemma DivOfSplit(a: int, d: int, q: int, r: int)
    requires d > 0 && 0 <= r < d && a == d * q + r
    ensures a / d == q
  {
    var q', r' := a / d, a % d;
    assert a == d * q' + r';
    if q' < q {
      MulMono(q' + 1, q, d);
      MulAdd(q', 1, d);
    } else if q' > q {
      MulMono(q + 1, q', d);
      MulAdd(q, 1, d);
    }
  }

  /**
   * The integer cube root: the estimate starts at 15 for `x >= 0` and at -16
   * for `x < 0` (`(x >> 31) ^ 0xF`), then takes exactly four Halley steps. It
   * has the sign of `x`.
   */
  static function Cbrt(x: int): (y: int)
    ensures x > 0 ==> y >= 1
    ensures x == 0 ==> y == 0
    ensures x < 0 ==> y <= -1
  {
    var y0 := if x < 0 then -16 else 15;
    HalleySign(y0, x);
    var y1 := Halley(y0, x);
    HalleySign(y1, x);
    var y2 := Halley(y1, x);
    HalleySign(y2, x);
    var y3 := Halley(y2, x);
    HalleySign(y3, x);
    Halley(y3, x)
  }

  // ----- The integrator, on both sides -----

  /** The cube root the encoder takes for sample `x` from integrator `acc`: `cbrt((x - acc) << 5)`. */
  static function Root(acc: int, x: Short): int
  {
    Cbrt(ToInt32((x - acc) * 32))
  }

  /** The integrator's increment for a root or code `c`: `(c * c * c) >> 5`, a floor division. */
  static function Increment(c: int): int
  {
    c * c * c / 32
  }

  /**
   * The encoder's step for one sample: emit the cube root as a byte, and add
   * the cube over 32 of the root it computed (not of the byte) to the integrator.
   */
  static function EncodeStep(acc: int, x: Short): (int, Byte)
  {
    var c := Root(acc, x);
    (acc + Increment(c), ByteOf(c))
  }

  /**
   * The decoder's step for one byte: add the cube over 32 of its signed value
   * to the integrator, which is kept unclamped, and output the integrator
   * saturated to 16 bits.
   */
  static function DecodeStep(acc: int, b: Byte): (int, Short)
  {
    var a := Signed(b);
    var next := acc + Increment(a);
    (next, Clamp16(next))
  }

  /** The root the encoder takes from `acc` for `x` survives the 8-bit cast. */
  static predicate Fits(acc: int, x: Short)
  {
    -128 <= Root(acc, x) <= 127
  }

  /** Decoding the byte of a root that fits adds the same increment the encoder added. */
  static lemma StepTracks(acc: int, x: Short)
    requires Fits(acc, x)
    ensures DecodeStep(acc, EncodeStep(acc, x).1).0 == EncodeStep(acc, x).0
    ensures DecodeStep(acc, EncodeStep(acc, x).1).1 == Clamp16(EncodeStep(acc, x).0)
  {
    var c := Root(acc, x);
    assert EncodeStep(acc, x) == (acc + Increment(c), ByteOf(c));
    DecodeOfByte(acc, c);
  }

  /** The decoder's step on the byte of a value `c` that fits in one adds the increment of `c` itself. */
  static lemma DecodeOfByte(acc: int, c: int)
    requires -128 <= c <= 127
    ensures DecodeStep(acc, ByteOf(c)) == (acc + Increment(c), Clamp16(acc + Increment(c)))
  {
    SignedOfToSignedByte(c);
  }

  /**
   * Over a channel whose every root fits in a byte, the decoder fed the
   * encoder's bytes from the same starting integrator holds the encoder's
   * integrator after every sample, and outputs that integrator saturated.
   */
  static lemma DecoderTracksEncoder(acc: int, xs: seq<Short>)
    requires forall k :: 0 <= k < |xs| ==> Fits(Final(EncodeStep, acc, xs[..k]), xs[k])
    ensures Final(DecodeStep, acc, Outs(EncodeStep, acc, xs)) == Final(EncodeStep, acc, xs)
    ensures forall k :: 0 <= k < |xs| ==>
      Outs(DecodeStep, acc, Outs(EncodeStep, acc, xs))[k] == Clamp16(Final(EncodeStep, acc, xs[..k + 1]))
  {
    var codes := Outs(EncodeStep, acc, xs);
    IntegratorsAgree(acc, xs, |xs|);
    assert codes[..|xs|] == codes && xs[..|xs|] == xs;
    forall k | 0 <= k < |xs|
      ensures Outs(DecodeStep, acc, codes)[k] == Clamp16(Final(EncodeStep, acc, xs[..k + 1]))
    {
      IntegratorsAgree(acc, xs, k);
      OutsAt(DecodeStep, acc, codes, k);
      OutsAt(EncodeStep, acc, xs, k);
      RunSnoc(EncodeStep, acc, xs, k);
      StepTracks(Final(EncodeStep, acc, xs[..k]), xs[k]);
    }
  }

  /** The decoder's integrator after the first `n` codes is the encoder's after the first `n` samples. */
  static lemma {:induction false} IntegratorsAgree(acc: int, xs: seq<Short>, n: nat)
    requires n <= |xs|
    requires forall k :: 0 <= k < |xs| ==> Fits(Final(EncodeStep, acc, xs[..k]), xs[k])
    ensures Final(DecodeStep, acc, Outs(EncodeStep, acc, xs)[..n]) == Final(EncodeStep, acc, xs[..n])
    decreases n
  {
    if n > 0 {
      var codes := Outs(EncodeStep, acc, xs);
      IntegratorsAgree(acc, xs, n - 1);
      OutsAt(EncodeStep, acc, xs, n - 1);
      RunSnoc(DecodeStep, acc, codes, n - 1);
      RunSnoc(EncodeStep, acc, xs, n - 1);
      StepTracks(Final(EncodeStep, acc, xs[..n - 1]), xs[n - 1]);
    }
  }

  // ----- Decoding -----

  /** The stream still holds one byte per channel for every frame it declares. */
  ghost predicate Complete()
    reads this
  {
    numChannels > 0 && samplesRemaining >= 0 && samplesRemaining * numChannels <= |stream|
  }

  /** The samples still to be delivered: the declared bytes run through the integrators from their present values. */
  ghost function Pending(): (p: seq<Short>)
    requires Valid() && Complete()
    reads this, channelState
    ensures |p| == samplesRemaining * numChannels
  {
    RunAll(DecodeStep, channelState[..], stream[..samplesRemaining * numChannels], numChannels, samplesRemaining)
  }

  /**
   * Reads the bytes of up to `count` frames (no more than remain, nor than
   * 65536), and runs each channel's integrator over its bytes of the whole
   * frames read, placing the outputs at frame `offset`.
   */
  method GetSamples(outputBuf: array<Short>, offset: nat, count: nat) returns (n: nat)
    requires Valid() && numChannels > 0 && (offset + Max(0, Wanted(count, samplesRemaining))) * numChannels <= outputBuf.Length
    requires outputBuf as object != channelState as object
    modifies this, channelState, outputBuf
    ensures Valid()
    ensures n <= count && n <= BUF_SAMPLES && (n == 0 || n <= old(samplesRemaining))
    ensures samplesRemaining == old(samplesRemaining) - n
    ensures stream == old(stream)[ReadFully(|old(stream)|, Wanted(count, old(samplesRemaining)) * numChannels)..]
    ensures n * numChannels <= |old(stream)| && offset * numChannels + n * numChannels <= outputBuf.Length
    ensures outputBuf[..] == Splice(old(outputBuf[..]), offset * numChannels,
      RunAll(DecodeStep, old(channelState[..]), old(stream)[..n * numChannels], numChannels, n))
    ensures channelState[..] == FinalAll(DecodeStep, old(channelState[..]), old(stream)[..n * numChannels], numChannels, n)
    ensures old(Complete()) ==> Complete() && n == Min(count, Min(old(samplesRemaining), BUF_SAMPLES))
    ensures old(Complete()) ==> n * numChannels <= |old(Pending())|
    ensures old(Complete()) ==>
      outputBuf[..] == Splice(old(outputBuf[..]), offset * numChannels, old(Pending())[..n * numChannels])
    ensures old(Complete()) ==> Pending() == old(Pending())[n * numChannels..]
    ensures old(Complete()) ==> Progress(n, count, old(samplesRemaining))
  {
    ghost var wasComplete := Complete();
    ghost var p0 := if wasComplete then Pending() else [];
    ghost var s0 := channelState[..];
    ghost var rest := stream;
    ghost var rem := samplesRemaining;
    var got, chunk;
    n, got, chunk := ReadFrames(count);
    var nc := numChannels;
    MulAdd(offset, n, nc);
    MulMono(offset + n, offset + Max(0, Wanted(count, rem)), nc);
    RunInto(DecodeStep, channelState, chunk, outputBuf, offset, nc, n);
    if wasComplete {
      RunPull(DecodeStep, s0, rest, nc, rem, n);
      assert p0 == RunAll(DecodeStep, s0, rest[..rem * nc], nc, rem);
      assert chunk == rest[..n * nc];
      assert stream == rest[n * nc..];
      assert Pending() == RunAll(DecodeStep, channelState[..], stream[..(rem - n) * nc], nc, rem - n);
    }
  }

  /**
   * The reading half of a pull: clamps the request to the frames remaining and
   * to the buffer, reads those bytes, and counts the whole frames read; `chunk`
   * holds the bytes of those frames.
   */
  method ReadFrames(count: nat) returns (n: nat, got: nat, chunk: seq<Byte>)
    requires numChannels > 0
    modifies this
    ensures n <= count && n <= BUF_SAMPLES && (n == 0 || n <= old(samplesRemaining))
    ensures got == ReadFully(|old(stream)|, Wanted(count, old(samplesRemaining)) * numChannels)
    ensures WholeFrames(n, got, numChannels) && got <= |old(stream)|
    ensures chunk == old(stream)[..n * numChannels] && stream == old(stream)[got..]
    ensures samplesRemaining == old(samplesRemaining) - n
    ensures old(Complete()) ==> Complete() && n == Min(count, Min(old(samplesRemaining), BUF_SAMPLES))
    ensures old(Complete()) ==> got == n * numChannels && n <= old(samplesRemaining)
  {
    ghost var wasComplete := Complete();
    var rem := samplesRemaining;
    var nc := numChannels;
    var rest := stream;
    var want;
    want, got, n := PullCounts(|rest|, rem, count, nc);
    chunk := rest[..n * nc];
    samplesRemaining := rem - n;
    stream := rest[got..];
    if wasComplete {
      PullCount(|rest|, rem, nc, want, got, n);
      assert samplesRemaining == rem - n && numChannels == nc && |stream| == |rest| - got;
      assert Complete();
    }
  }

  // ----- Encoding -----

  /**
   * Encodes every frame `sampleData` still holds, a buffer of at most 65536
   * frames at a time, each channel's integrator carried from one buffer to the
   * next, and returns the bytes written to the output stream.
   */
  static method Encode(sampleData: SampleData) returns (written: seq<Byte>)
    requires sampleData.Valid() && sampleData.Complete() && sampleData.NumChannels() > 0
    modifies sampleData.Repr()
    ensures sampleData.Valid() && sampleData.Complete() && sampleData.Remaining() == 0
    ensures written == RunAll(EncodeStep, Fill(0, sampleData.NumChannels()), old(sampleData.Pending()),
                              sampleData.NumChannels(), old(sampleData.Remaining()))
  {
    var numChannels := sampleData.NumChannels();
    var channelState := new int[numChannels](c => 0);
    var inputBuf := new Short[BUF_SAMPLES * numChannels];
    var outputBuf := new Byte[BUF_SAMPLES * numChannels];
    assert channelState[..] == Fill(0, numChannels);
    written := EncodeRest(sampleData, channelState, inputBuf, outputBuf);
  }

  /**
   * The encoding loop: encodes every frame `sampleData` still holds, continuing
   * each channel's integrator from `channelState`.
   */
  static method EncodeRest(sampleData: SampleData, channelState: array<int>, inputBuf: array<Short>, outputBuf: array<Byte>)
    returns (written: seq<Byte>)
    requires sampleData.Valid() && sampleData.Complete() && sampleData.NumChannels() > 0
    requires channelState.Length == sampleData.NumChannels()
    requires inputBuf.Length == BUF_SAMPLES * sampleData.NumChannels() && outputBuf.Length == BUF_SAMPLES * sampleData.NumChannels()
    requires channelState !in sampleData.Repr() && inputBuf !in sampleData.Repr() && outputBuf !in sampleData.Repr()
    modifies sampleData.Repr(), channelState, inputBuf, outputBuf
    ensures sampleData.Valid() && sampleData.Complete() && sampleData.Remaining() == 0
    ensures written == RunAll(EncodeStep, old(channelState[..]), old(sampleData.Pending()),
                              sampleData.NumChannels(), old(sampleData.Remaining()))
  {
    var numChannels := sampleData.NumChannels();
    ghost var all := sampleData.Pending();
    ghost var total: nat := sampleData.Remaining();
    ghost var s0 := channelState[..];
    written := [];
    while sampleData.Remaining() > 0
      invariant sampleData.Valid() && sampleData.Complete() && sampleData.Remaining() >= 0
      invariant written + RunAll(EncodeStep, channelState[..], sampleData.Pending(), numChannels, sampleData.Remaining())
             == RunAll(EncodeStep, s0, all, numChannels, total)
      decreases sampleData.Remaining()
    {
      ghost var before := written;
      ghost var run0 := RunAll(EncodeStep, channelState[..], sampleData.Pending(), numChannels, sampleData.Remaining());
      var chunk := EncodeBuffer(sampleData, channelState, inputBuf, outputBuf);
      ghost var run1 := RunAll(EncodeStep, channelState[..], sampleData.Pending(), numChannels, sampleData.Remaining());
      assert chunk + run1 == run0;
      written := written + chunk;
      AppendAssoc(before, chunk, run1);
    }
  }

  /**
   * One round of the encoding loop: pulls up to 65536 frames into `inputBuf`,
   * runs each channel's integrator over them into `outputBuf` and returns the
   * bytes of those frames.
   */
  static method EncodeBuffer(sampleData: SampleData, channelState: array<int>, inputBuf: array<Short>, outputBuf: array<Byte>)
    returns (chunk: seq<Byte>)
    requires sampleData.Valid() && sampleData.Complete() && sampleData.Remaining() > 0 && sampleData.NumChannels() > 0
    requires channelState.Length == sampleData.NumChannels()
    requires inputBuf.Length == BUF_SAMPLES * sampleData.NumChannels() && outputBuf.Length == BUF_SAMPLES * sampleData.NumChannels()
    requires channelState !in sampleData.Repr() && inputBuf !in sampleData.Repr() && outputBuf !in sampleData.Repr()
    modifies sampleData.Repr(), channelState, inputBuf, outputBuf
    ensures sampleData.Valid() && sampleData.Complete() && 0 <= sampleData.Remaining() < old(sampleData.Remaining())
    ensures chunk + RunAll(EncodeStep, channelState[..], sampleData.Pending(), sampleData.NumChannels(), sampleData.Remaining())
         == RunAll(EncodeStep, old(channelState[..]), old(sampleData.Pending()), sampleData.NumChannels(), old(sampleData.Remaining()))
  {
    var numChannels := sampleData.NumChannels();
    ghost var p := sampleData.Pending();
    ghost var rem: nat := sampleData.Remaining();
    ghost var before := inputBuf[..];
    var count := sampleData.PullBuffer(inputBuf);
    ghost var left := sampleData.Pending();
    ghost var r := sampleData.Remaining();
    assert sampleData.Holds(left, r);
    chunk := EncodeChunk(channelState, inputBuf, outputBuf, numChannels, count, p, rem, before);
    assert sampleData.Holds(left, r);
  }

  /**
   * The encoding half of a round: runs each channel's integrator over the
   * `count` frames pulled into `inputBuf` (the next frames of `p`), and returns
   * the bytes of those frames.
   */
  static method EncodeChunk(channelState: array<int>, inputBuf: array<Short>, outputBuf: array<Byte>, nc: nat, count: nat,
                            ghost p: seq<Short>, ghost rem: nat, ghost before: seq<Short>)
    returns (chunk: seq<Byte>)
    requires channelState.Length == nc && inputBuf.Length == BUF_SAMPLES * nc && outputBuf.Length == BUF_SAMPLES * nc
    requires rem > 0 && |p| == rem * nc && count == Min(rem, BUF_SAMPLES) && count * nc <= |p|
    requires count * nc <= |before| && inputBuf[..] == Splice(before, 0, p[..count * nc])
    requires channelState as object != outputBuf as object
    modifies channelState, outputBuf
    ensures (rem - count) * nc <= |p[count * nc..]|
    ensures chunk + RunAll(EncodeStep, channelState[..], p[count * nc..], nc, rem - count)
         == RunAll(EncodeStep, old(channelState[..]), p, nc, rem)
  {
    ghost var s0 := channelState[..];
    ghost var out0 := outputBuf[..];
    MulMono(count, BUF_SAMPLES, nc);
    RunInto(EncodeStep, channelState, inputBuf[..], outputBuf, 0, nc, count);
    RunChunk(EncodeStep, s0, channelState[..], p, rem, nc, count, before, inputBuf[..], out0, outputBuf[..]);
    chunk := outputBuf[..count * nc];
  }
}
