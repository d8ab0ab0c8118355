import opened JavaInt
import opened Frames

/**
 * One channel's predictor: the predicted sample in 256ths (`pred`) and the
 * step size, also in 256ths of a sample (`step`).
 */
datatype Predictor = Predictor(pred: int, step: int)

/**
 * The 4-bit ADPCM codec (`AdpcmSampleData`). Every sample is coded as one of
 * sixteen offsets, in steps, from the channel's prediction; encoder and
 * decoder then move the prediction and adapt the step in the same way, so the
 * decoder follows the encoder's predictor exactly. Codes are packed two to a
 * byte, high nibble first, in interleaved order.
 *
 * As a decoder, the input stream is held as the bytes not yet read, `stream`,
 * and the per-channel predictors (the `preds` and `steps` arrays of the
 * original, side by side) persist from one pull to the next.
 */
class AdpcmSampleData {
  const numChannels: nat
  const sampleRate: int
  var stream: seq<Byte>
  var samplesRemaining: int
  const predictors: array<Predictor>

  /** One sample in the fixed-point scale of `pred` and `step`. */
  static const FP_ONE: int := 256

  /** The factor, in 256ths, by which each code scales the step. */
  static const STEP: seq<int> := [384, 352, 320, 288, 224, 224, 224, 224, 224, 224, 224, 224, 288, 320, 352, 384]

  /** The bias, in steps, each code adds to the prediction after its offset. */
  static const BIAS: seq<int> := [-7, -6, -5, -4, -3, -2, -1, 0, 0, 1, 2, 3, 4, 5, 6, 7]

  /** The predictor every channel starts from: the zeroed `preds` and `steps` arrays. */
  static function Start(): Predictor
  {
    Predictor(0, 0)
  }

  // ----- The predictor, shared by both sides -----

  /** The step a sample is coded with: the channel's step, raised to at least one sample. */
  static function Raised(step: int): (s: int)
    ensures s >= FP_ONE && (step >= FP_ONE ==> s == step)
  {
    if step < FP_ONE then FP_ONE else step
  }

  /** The offset code `code` stands for, `((2 code - 15) step) >> 1`: an odd number of half steps. */
  static function Offset(code: Nibble, step: int): int
  {
    (2 * code - 15) * step / 2
  }

  /**
   * The predictor after code `code`: the prediction moves by the code's offset
   * and then by its bias, and the step is scaled by the code's factor.
   */
  static function Advance(p: Predictor, code: Nibble): Predictor
  {
    var step := Raised(p.step);
    Predictor(p.pred + Offset(code, step) + BIAS[code] * step, step * STEP[code] / 256)
  }

  /** The sample code `code` reconstructs from `p`: the prediction after the offset, scaled back and saturated. */
  static function Reconstruct(p: Predictor, code: Nibble): Short
  {
    Clamp16((p.pred + Offset(code, Raised(p.step))) / 256)
  }

  /**
   * The code the encoder picks for sample `x`: the distance from the
   * prediction, in half steps and shifted by 15, divided with truncation,
   * halved rounding up, and limited to a nibble.
   */
  static function Quantize(p: Predictor, x: Short): Nibble
  {
    var step := Raised(p.step);
    var delta := x * 256 - p.pred;
    var code := TDiv(2 * delta + 15 * step, step);
    var rounded := code % 2 + code / 2;
    if rounded < 0 then 0 else if rounded > 15 then 15 else rounded
  }

  /** The encoder's step for one sample: emit its code, and advance the predictor by it. */
  static function EncodeStep(p: Predictor, x: Short): (Predictor, Short)
  {
    var code := Quantize(p, x);
    (Advance(p, code), code)
  }

  /** The decoder's step for one code: output its reconstruction, and advance the predictor by it. */
  static function DecodeStep(p: Predictor, code: Nibble): (Predictor, Short)
  {
    (Advance(p, code), Reconstruct(p, code))
  }

  /** `(q & 1) + (q >> 1)`, the halving of `q` rounding up, is within one half of `q`. */
  static lemma HalfUp(q: int)
    ensures 2 * (q % 2 + q / 2) - 1 <= q <= 2 * (q % 2 + q / 2)
  {
  }

  /**
   * The encoder's code is the nearest one: a sample within the sixteen
   * offsets' reach gets the code whose offset from the prediction is within
   * half a step of it, and one beyond them gets the end code on its side.
   */
  static lemma QuantizeNearest(p: Predictor, x: Short)
    ensures var s, delta := Raised(p.step), x * 256 - p.pred;
      && (2 * delta < -15 * s ==> Quantize(p, x) == 0)
      && (2 * delta >= 16 * s ==> Quantize(p, x) == 15)
      && (-15 * s <= 2 * delta < 16 * s ==> -s <= 2 * (delta - Offset(Quantize(p, x), s)) <= s)
  {
    var s, delta := Raised(p.step), x * 256 - p.pred;
    var t := 2 * delta + 15 * s;
    var q := TDiv(t, s);
    var c := Quantize(p, x);
    HalfUp(q);
    if t < 0 {
      assert q <= 0;
    } else if t >= 31 * s {
      MulDiv(31, s);
      DivMono(31 * s, t, s);
      assert q >= 31;
    } else {
      DivRemainder(t, s);
      assert q * s <= t < q * s + s;
      if q > 30 {
        MulMono(31, q, s);
      }
      assert 0 <= q <= 30;
      assert c == q % 2 + q / 2;
      MulMono(2 * c - 1, q, s);
      MulMono(q + 1, 2 * c + 1, s);
      MulSub(2 * c, 1, s);
      MulAdd(2 * c, 1, s);
      MulSub(2 * c, 15, s);
      var off := Offset(c, s);
      assert (2 * c - 15) * s - 1 <= 2 * off <= (2 * c - 15) * s;
    }
  }

  static lemma DivRemainder(a: nat, d: nat)
    requires d > 0
    ensures a / d * d <= a < a / d * d + d
  {
  }

  /**
   * The step adapts to the code: an outer code (at least four steps out)
   * widens it by between an eighth and a half, an inner one narrows it to
   * seven eighths; it never falls below 224, so raising it to 256 matters.
   */
  static lemma StepAdapts(p: Predictor, code: Nibble)
    ensures var s, s' := Raised(p.step), Advance(p, code).step;
      && s' >= 224
      && ((code <= 3 || code >= 12) ==> s + s / 8 <= s' <= s + s / 2)
      && (4 <= code <= 11 ==> s' == s * 7 / 8)
  {
  }

  /** Every code the encoder emits is a nibble. */
  static lemma CodesAreNibbles(p: Predictor, xs: seq<Short>)
    ensures forall k :: 0 <= k < |xs| ==> 0 <= Outs(EncodeStep, p, xs)[k] <= 15
  {
    forall k | 0 <= k < |xs|
      ensures 0 <= Outs(EncodeStep, p, xs)[k] <= 15
    {
      OutsAt(EncodeStep, p, xs, k);
    }
  }

  /**
   * Fed the encoder's codes from the same predictor, the decoder holds the
   * encoder's predictor after every sample, and outputs the reconstruction the
   * encoder coded each sample against.
   */
  static lemma DecoderTracksEncoder(p: Predictor, xs: seq<Short>, codes: seq<Nibble>)
    requires codes == Outs(EncodeStep, p, xs)
    ensures Final(DecodeStep, p, codes) == Final(EncodeStep, p, xs)
    ensures forall k :: 0 <= k < |xs| ==>
      Outs(DecodeStep, p, codes)[k] == Reconstruct(Final(EncodeStep, p, xs[..k]), Quantize(Final(EncodeStep, p, xs[..k]), xs[k]))
  {
    PredictorsAgree(p, xs, codes, |xs|);
    assert codes[..|xs|] == codes && xs[..|xs|] == xs;
    forall k | 0 <= k < |xs| {
      OutputTracks(p, xs, codes, k);
    }
  }

  /** The decoder's `k`-th output is the reconstruction of the encoder's `k`-th code from the encoder's predictor. */
  static lemma OutputTracks(p: Predictor, xs: seq<Short>, codes: seq<Nibble>, k: nat)
    requires codes == Outs(EncodeStep, p, xs) && k < |xs|
    ensures Outs(DecodeStep, p, codes)[k] == Reconstruct(Final(EncodeStep, p, xs[..k]), Quantize(Final(EncodeStep, p, xs[..k]), xs[k]))
  {
    PredictorsAgree(p, xs, codes, k);
    OutsAt(DecodeStep, p, codes, k);
    OutsAt(EncodeStep, p, xs, k);
  }

  /** The decoder's predictor after the first `n` codes is the encoder's after the first `n` samples. */
  static lemma {:induction false} PredictorsAgree(p: Predictor, xs: seq<Short>, codes: seq<Nibble>, n: nat)
    requires codes == Outs(EncodeStep, p, xs) && n <= |xs|
    ensures Final(DecodeStep, p, codes[..n]) == Final(EncodeStep, p, xs[..n])
    decreases n
  {
    if n > 0 {
      PredictorsAgree(p, xs, codes, n - 1);
      OutsAt(EncodeStep, p, xs, n - 1);
      RunSnoc(DecodeStep, p, codes, n - 1);
      RunSnoc(EncodeStep, p, xs, n - 1);
    }
  }

  // ----- Packing codes two to a byte -----

  /** `(byte) ((hi << 4) | (lo & 0xF))`: the low nibble of `hi` above the low nibble of `lo`. */
  static function PackByte(hi: Short, lo: Short): Byte
  {
    hi % 16 * 16 + lo % 16
  }

  /** The bytes of an even number of codes, each byte holding a pair, the first code high. */
  static function Pack(codes: seq<Short>): (b: seq<Byte>)
    requires |codes| % 2 == 0
    ensures 2 * |b| == |codes|
    decreases |codes|
  {
    if codes == [] then []
    else
      var k := |codes| - 2;
      Pack(codes[..k]) + [PackByte(codes[k], codes[k + 1])]
  }

  /** The codes in the bytes `b`, two from each byte, high nibble first. */
  static function Unpack(b: seq<Byte>): (codes: seq<Nibble>)
    ensures |codes| == 2 * |b|
    decreases |b|
  {
    if b == [] then []
    else
      var k := |b| - 1;
      Unpack(b[..k]) + [b[k] / 16, b[k] % 16]
  }

  /** Unpacking the packed bytes of nibble codes gives the codes back. */
  static lemma {:induction false} UnpackPack(codes: seq<Short>)
    requires |codes| % 2 == 0 && forall k :: 0 <= k < |codes| ==> 0 <= codes[k] <= 15
    ensures Unpack(Pack(codes)) == codes
    decreases |codes|
  {
    if codes != [] {
      var k := |codes| - 2;
      var pre := codes[..k];
      UnpackPack(pre);
      var hi, lo := codes[k], codes[k + 1];
      var pb := PackByte(hi, lo);
      var b := Pack(codes);
      assert b == Pack(pre) + [pb];
      assert b[..|b| - 1] == Pack(pre) && b[|b| - 1] == pb;
      NibblesOfByte(hi, lo);
      assert pb / 16 == hi && pb % 16 == lo;
      assert Unpack(b) == pre + [hi, lo];
      LastTwo(codes);
    }
  }

  static lemma LastTwo<X>(s: seq<X>)
    requires |s| >= 2
    ensures s == s[..|s| - 2] + [s[|s| - 2], s[|s| - 1]]
  {
  }

  /** The two nibbles of `hi * 16 + lo` are `hi` and `lo`. */
  static lemma NibblesOfByte(hi: int, lo: int)
    requires 0 <= hi <= 15 && 0 <= lo <= 15
    ensures (hi * 16 + lo) / 16 == hi && (hi * 16 + lo) % 16 == lo
    ensures hi % 16 == hi && lo % 16 == lo
  {
  }

  /** Any byte is its high nibble above its low nibble. */
  static lemma ByteOfNibbles(b: Byte)
    ensures (b / 16) % 16 == b / 16 && (b % 16) % 16 == b % 16 && b / 16 * 16 + b % 16 == b
  {
  }

  /** Packing the codes unpacked from bytes gives the bytes back. */
  static lemma {:induction false} PackUnpack(b: seq<Byte>)
    ensures Pack(Unpack(b)) == b
    decreases |b|
  {
    if b != [] {
      var k := |b| - 1;
      PackUnpack(b[..k]);
      var u := Unpack(b);
      var hi, lo := b[k] / 16, b[k] % 16;
      assert u == Unpack(b[..k]) + [hi, lo];
      assert u[..|u| - 2] == Unpack(b[..k]) && u[|u| - 2] == hi && u[|u| - 1] == lo;
      ByteOfNibbles(b[k]);
      assert PackByte(hi, lo) == b[k];
      assert Pack(u) == b[..k] + [b[k]];
      assert b == b[..k] + [b[k]];
    }
  }

  /** Packing an even-length run of codes and then another packs the whole. */
  static lemma {:induction false} PackAppend(a: seq<Short>, c: seq<Short>)
    requires |a| % 2 == 0 && |c| % 2 == 0
    ensures Pack(a + c) == Pack(a) + Pack(c)
    decreases |c|
  {
    if c == [] {
      assert a + c == a;
    } else {
      var k := |c| - 2;
      PackAppend(a, c[..k]);
      assert (a + c)[..|a + c| - 2] == a + c[..k];
    }
  }

  /** The codes of the first `k` bytes are the first `2k` codes. */
  static lemma {:induction false} UnpackPrefix(b: seq<Byte>, k: nat)
    requires k <= |b|
    ensures Unpack(b[..k]) == Unpack(b)[..2 * k]
    decreases |b|
  {
    if k < |b| {
      var m := |b| - 1;
      UnpackPrefix(b[..m], k);
      assert b[..m][..k] == b[..k];
    } else {
      assert b[..k] == b;
    }
  }

  /** The codes of `a` followed by those of `b` are the codes of `a + b`. */
  static lemma {:induction false} UnpackAppend(a: seq<Byte>, b: seq<Byte>)
    ensures Unpack(a + b) == Unpack(a) + Unpack(b)
    decreases |b|
  {
    if b == [] {
      assert a + b == a;
    } else {
      var k := |b| - 1;
      UnpackAppend(a, b[..k]);
      assert (a + b)[..|a + b| - 1] == a + b[..k];
    }
  }

  // ----- Decoding -----

  /** `x & -2`: `x` rounded down to an even number. */
  static function EvenFloor(x: int): (r: int)
    ensures r % 2 == 0 && r <= x < r + 2 && (x >= 0 ==> r >= 0)
  {
    x - x % 2
  }

  /** An even number `n` of frames of `nc` codes fills `n * nc / 2` whole bytes. */
  static lemma HalfFrames(n: int, nc: nat)
    requires n % 2 == 0
    ensures (n * nc) % 2 == 0 && 2 * (n * nc / 2) == n * nc && n * nc / 2 == n / 2 * nc
    ensures n >= 0 ==> CodeBytes(n, nc) == n * nc / 2
  {
    var h := n / 2;
    assert n == 2 * h;
    MulAssoc(2, h, nc);
  }

  /**
   * Prepares to decode `numSamples` frames, rounded down to an even number,
   * from the start of the stream `input`, every channel's predictor zeroed.
   */
  constructor (input: seq<Byte>, numChannels: nat, sampleRate: int, numSamples: int)
    ensures stream == input && this.numChannels == numChannels && this.sampleRate == sampleRate
    ensures samplesRemaining == EvenFloor(numSamples)
    ensures Valid() && fresh(predictors) && predictors[..] == Fill(Start(), numChannels)
  {
    this.stream := input;
    this.numChannels := numChannels;
    this.sampleRate := sampleRate;
    this.samplesRemaining := EvenFloor(numSamples);
    this.predictors := new Predictor[numChannels](c => Start());
  }

  /** There is one predictor per channel. */
  ghost predicate Valid()
    reads this
  {
    predictors.Length == numChannels
  }

  /** The stream still holds the bytes of every frame it declares, an even number of them. */
  ghost predicate Complete()
    reads this
  {
    numChannels > 0 && samplesRemaining >= 0 && samplesRemaining % 2 == 0 && samplesRemaining * numChannels <= 2 * |stream|
  }

  /** The samples still to be delivered: the codes of the declared bytes run through the predictors from their present values. */
  ghost function Pending(): (p: seq<Short>)
    requires Valid() && Complete()
    reads this, predictors
    ensures |p| == samplesRemaining * numChannels
  {
    Decoded(predictors[..], stream, numChannels, samplesRemaining)
  }

  /** The samples of the first `rem` frames coded in `bytes`, decoded from the predictors `preds`. */
  static ghost function Decoded(preds: seq<Predictor>, bytes: seq<Byte>, nc: nat, rem: nat): (p: seq<Short>)
    requires |preds| == nc && rem * nc <= 2 * |bytes|
    ensures |p| == rem * nc
  {
    RunAll(DecodeStep, preds, Unpack(bytes), nc, rem)
  }

  /** The bytes holding the codes of `n` frames of `nc` channels, two codes to a byte. */
  static function CodeBytes(n: nat, nc: nat): nat
  {
    (n * nc + 1) / 2
  }

  /** The frames a pull decodes from the `got` bytes it read, for `nc` channels: `got * 2 / nc`. */
  static function FramesRead(got: nat, nc: nat): nat
    requires nc > 0
  {
    got * 2 / nc
  }

  /**
   * The frames a pull decodes are those whose codes all lie in the bytes
   * read: the codes of one more frame do not.
   */
  static lemma FramesReadWhole(got: nat, nc: nat)
    requires nc > 0
    ensures var n := FramesRead(got, nc);
      && n * nc <= 2 * got < (n + 1) * nc && CodeBytes(n, nc) <= got
  {
    var n := FramesRead(got, nc);
    DivRemainder(got * 2, nc);
    MulAdd(n, 1, nc);
  }

  /**
   * As written, a pull of four frames of three channels from a stream holding
   * only five more bytes reads those five and counts three frames in them, so
   * its channel loops decode nine codes where its unpacking loop, which unpacks
   * `3 * 3 / 2` bytes, wrote only eight.
   */
  static lemma OddPullAsWritten()
    ensures var got := ReadFully(5, TDiv(Wanted(4, EvenFloor(4)), 2) * 3);
      && got == 5 && FramesRead(got, 3) == 3
      && 2 * (FramesRead(got, 3) * 3 / 2) == 8 < FramesRead(got, 3) * 3
      && CodeBytes(FramesRead(got, 3), 3) == 5
  {
  }

  /**
   * As written, when `n` frames have an odd number of codes, the unpacking
   * loop's `n * nc / 2` bytes leave the slot of the last code holding what the
   * buffer held before: the decoding loop takes that for the code.
   */
  static lemma StaleCodeAsWritten(s: seq<Short>, at: nat, chunk: seq<Byte>, n: nat, nc: nat)
    requires (n * nc) % 2 == 1 && at + n * nc <= |s| && |chunk| >= n * nc / 2
    ensures Splice(s, at, Unpack(chunk[..n * nc / 2]))[at + n * nc - 1] == s[at + n * nc - 1]
  {
  }

  /**
   * The arithmetic of a pull of `count` frames from `avail` bytes with `rem`
   * frames declared: at most the frames asked for, remaining and fitting a
   * buffer, whose bytes are among those read; from a complete stream, exactly
   * the even part of the frames asked for.
   */
  static lemma PullPairs(avail: nat, rem: int, count: nat, nc: nat, want: int, got: nat, n: nat)
    requires nc > 0 && want == Wanted(count, rem) && got == ReadFully(avail, TDiv(want, 2) * nc)
    requires n == FramesRead(got, nc)
    ensures n <= count && n <= BUF_SAMPLES && (n == 0 || n <= rem) && CodeBytes(n, nc) <= got <= avail
    ensures n <= Max(0, EvenFloor(want))
    ensures rem >= 0 && rem % 2 == 0 && rem * nc <= 2 * avail ==>
      n == EvenFloor(want) && got == n * nc / 2 && (rem - n) * nc <= 2 * (avail - got)
  {
    FramesReadWhole(got, nc);
    var w := TDiv(want, 2);
    if want < 2 {
      MulMono(w, 0, nc);
      HalfBound(n, nc, 0);
    } else {
      assert w == want / 2;
      HalfBound(n, nc, w);
      if rem >= 0 && rem % 2 == 0 && rem * nc <= 2 * avail {
        PairsExact(avail, rem, nc, w, got, n);
      }
    }
  }

  /** `n` frames whose codes fit in the bytes of `2 w` frames are at most `2 w`. */
  static lemma HalfBound(n: nat, nc: nat, w: int)
    requires nc > 0 && n * nc <= 2 * (w * nc)
    ensures n <= 2 * w
  {
    MulAssoc(2, w, nc);
    if n > 2 * w {
      MulMono(2 * w + 1, n, nc);
      MulAdd(2 * w, 1, nc);
    }
  }

  /** From a complete stream, a pull of the bytes of `2 w` frames reads them all and decodes all `2 w`. */
  static lemma PairsExact(avail: nat, rem: int, nc: nat, w: nat, got: nat, n: nat)
    requires nc > 0 && rem >= 0 && rem % 2 == 0 && rem * nc <= 2 * avail && 0 < w && 2 * w <= rem
    requires got == ReadFully(avail, w * nc) && n == FramesRead(got, nc)
    ensures got == w * nc && n == 2 * w && got == n * nc / 2 && (rem - n) * nc <= 2 * (avail - got)
  {
    HalfFrames(rem, nc);
    MulMono(w, rem / 2, nc);
    assert got == w * nc;
    MulAssoc(2, w, nc);
    MulDiv(2 * w, nc);
    assert got * 2 / nc == 2 * w;
    HalfFrames(2 * w, nc);
    HalfFrames(rem - 2 * w, nc);
    MulSub(rem / 2, w, nc);
  }

  /**
   * A pull of an even `n <= rem` frames from a stream whose `rem` declared
   * frames are all present: the codes of the bytes read give the first
   * outputs, and the bytes after them, from the predictors reached, the rest.
   */
  static lemma DecodePull(s0: seq<Predictor>, rest: seq<Byte>, nc: nat, rem: nat, n: nat)
    requires |s0| == nc && n % 2 == 0 && n <= rem && rem * nc <= 2 * |rest|
    ensures 2 * (n * nc / 2) == n * nc && n * nc / 2 <= |rest| && n * nc <= rem * nc
    ensures (rem - n) * nc <= 2 * |rest[n * nc / 2..]|
    ensures Decoded(s0, rest, nc, rem)[..n * nc] == RunAll(DecodeStep, s0, Unpack(rest[..n * nc / 2]), nc, n)
    ensures Decoded(s0, rest, nc, rem)[n * nc..]
         == Decoded(FinalAll(DecodeStep, s0, Unpack(rest[..n * nc / 2]), nc, n), rest[n * nc / 2..], nc, rem - n)
  {
    HalfFrames(n, nc);
    MulMono(n, rem, nc);
    MulSub(rem, n, nc);
    var h := n * nc / 2;
    var a, b := rest[..h], rest[h..];
    assert rest == a + b;
    UnpackAppend(a, b);
    var m := rem - n;
    RunAllConcat(DecodeStep, s0, Unpack(a), Unpack(b), nc, n, m);
    var x := RunAll(DecodeStep, s0, Unpack(a), nc, n);
    var y := RunAll(DecodeStep, FinalAll(DecodeStep, s0, Unpack(a), nc, n), Unpack(b), nc, m);
    assert n + m == rem;
    assert Decoded(s0, rest, nc, rem) == x + y;
    assert (x + y)[..n * nc] == x && (x + y)[n * nc..] == y;
  }

  /**
   * `DecodePull` as a pull sees it: the frames decoded from the bytes read
   * are the first pending samples, and the predictors and bytes left decode
   * to the rest.
   */
  static lemma PullPending(s0: seq<Predictor>, s1: seq<Predictor>, rest: seq<Byte>, left: seq<Byte>, nc: nat, rem: nat, n: nat)
    requires |s0| == nc && n % 2 == 0 && n <= rem && rem * nc <= 2 * |rest|
    requires CodeBytes(n, nc) <= |rest| && left == rest[CodeBytes(n, nc)..]
    requires s1 == FinalAll(DecodeStep, s0, Unpack(rest[..CodeBytes(n, nc)]), nc, n)
    ensures n * nc <= rem * nc && (rem - n) * nc <= 2 * |left|
    ensures Decoded(s0, rest, nc, rem)[..n * nc] == RunAll(DecodeStep, s0, Unpack(rest[..CodeBytes(n, nc)]), nc, n)
    ensures Decoded(s1, left, nc, rem - n) == Decoded(s0, rest, nc, rem)[n * nc..]
  {
    HalfFrames(n, nc);
    DecodePull(s0, rest, nc, rem, n);
  }

  /**
   * Reads the bytes of up to `count` frames (no more than remain, nor than
   * 65536), decodes the codes of the whole frames read and places them at
   * frame `offset`.
   */
  method GetSamples(outputBuf: array<Short>, offset: nat, count: nat) returns (n: nat)
    requires Valid() && numChannels > 0
    requires (offset + Max(0, EvenFloor(Wanted(count, samplesRemaining)))) * numChannels <= outputBuf.Length
    requires outputBuf as object != predictors as object
    modifies this, predictors, outputBuf
    ensures Valid()
    ensures n <= count && n <= BUF_SAMPLES && (n == 0 || n <= old(samplesRemaining))
    ensures samplesRemaining == old(samplesRemaining) - n
    ensures stream == old(stream)[ReadFully(|old(stream)|, TDiv(Wanted(count, old(samplesRemaining)), 2) * numChannels)..]
    ensures CodeBytes(n, numChannels) <= |old(stream)| && n * numChannels <= 2 * CodeBytes(n, numChannels)
    ensures offset * numChannels + n * numChannels <= outputBuf.Length
    ensures outputBuf[..] == Splice(old(outputBuf[..]), offset * numChannels,
      RunAll(DecodeStep, old(predictors[..]), Unpack(old(stream)[..CodeBytes(n, numChannels)]), numChannels, n))
    ensures predictors[..] == FinalAll(DecodeStep, old(predictors[..]), Unpack(old(stream)[..CodeBytes(n, numChannels)]), numChannels, n)
    ensures old(Complete()) ==> Complete() && n == EvenFloor(Wanted(count, old(samplesRemaining)))
    ensures old(Complete()) ==> n * numChannels <= |old(Pending())|
    ensures old(Complete()) ==>
      outputBuf[..] == Splice(old(outputBuf[..]), offset * numChannels, old(Pending())[..n * numChannels])
    ensures old(Complete()) ==> Pending() == old(Pending())[n * numChannels..]
    ensures old(Complete()) ==> Progress(n, count, old(samplesRemaining))
  {
    ghost var wasComplete := Complete();
    ghost var s0 := predictors[..];
    ghost var out0 := outputBuf[..];
    ghost var rest := stream;
    ghost var rem := samplesRemaining;
    var got, chunk;
    n, got, chunk := ReadFrames(count);
    var nc := numChannels;
    MulAdd(offset, n, nc);
    MulMono(offset + n, offset + Max(0, EvenFloor(Wanted(count, rem))), nc);
    DecodeChunk(chunk, outputBuf, offset, n);
    if wasComplete {
      HalfFrames(n, nc);
      assert stream == rest[CodeBytes(n, nc)..];
      PullPending(s0, predictors[..], rest, stream, nc, rem, n);
      assert old(Pending()) == Decoded(s0, rest, nc, rem);
      assert Pending() == Decoded(predictors[..], stream, nc, rem - n);
    }
  }

  /**
   * The reading half of a pull: clamps the request to the frames remaining and
   * to the buffer, reads the bytes of half that many frames, and counts the
   * frames whose codes were read; `chunk` holds the bytes of their codes.
   */
  method ReadFrames(count: nat) returns (n: nat, got: nat, chunk: seq<Byte>)
    requires numChannels > 0
    modifies this
    ensures got == ReadFully(|old(stream)|, TDiv(Wanted(count, old(samplesRemaining)), 2) * numChannels)
    ensures n == FramesRead(got, numChannels)
    ensures n <= count && n <= BUF_SAMPLES && (n == 0 || n <= old(samplesRemaining))
    ensures n <= Max(0, EvenFloor(Wanted(count, old(samplesRemaining))))
    ensures CodeBytes(n, numChannels) <= got <= |old(stream)|
    ensures chunk == old(stream)[..CodeBytes(n, numChannels)] && stream == old(stream)[got..]
    ensures samplesRemaining == old(samplesRemaining) - n
    ensures old(Complete()) ==> Complete() && n == EvenFloor(Wanted(count, old(samplesRemaining)))
    ensures old(Complete()) ==> got == n * numChannels / 2 && n <= old(samplesRemaining)
  {
    ghost var wasComplete := Complete();
    var rem := samplesRemaining;
    var nc := numChannels;
    var rest := stream;
    var want := Wanted(count, rem);
    got := ReadFully(|rest|, TDiv(want, 2) * nc);
    n := FramesRead(got, nc);
    PullPairs(|rest|, rem, count, nc, want, got, n);
    chunk := rest[..CodeBytes(n, nc)];
    samplesRemaining := rem - n;
    stream := rest[got..];
    if wasComplete {
      HalfFrames(rem - n, nc);
      assert samplesRemaining == rem - n && numChannels == nc && |stream| == |rest| - got;
      assert Complete();
    }
  }

  /**
   * The decoding half of a pull: unpacks the codes of the `n` frames in
   * `chunk` to their slots from frame `offset`, then runs each channel's
   * predictor over its codes there, replacing each code by its sample.
   */
  method DecodeChunk(chunk: seq<Byte>, outputBuf: array<Short>, offset: nat, n: nat)
    requires Valid() && |chunk| == CodeBytes(n, numChannels) && offset * numChannels + n * numChannels <= outputBuf.Length
    requires outputBuf as object != predictors as object
    modifies predictors, outputBuf
    ensures n * numChannels <= 2 * |chunk|
    ensures outputBuf[..] == Splice(old(outputBuf[..]), offset * numChannels,
      RunAll(DecodeStep, old(predictors[..]), Unpack(chunk), numChannels, n))
    ensures predictors[..] == FinalAll(DecodeStep, old(predictors[..]), Unpack(chunk), numChannels, n)
  {
    var nc := numChannels;
    var at := offset * nc;
    ghost var start := outputBuf[..];
    UnpackCodes(chunk, outputBuf, at, n * nc);
    ghost var first := Unpack(chunk)[..n * nc];
    SpliceMiddle(start, at, first);
    var codes: seq<Nibble> := outputBuf[at..at + n * nc];
    RunInto(DecodeStep, predictors, codes, outputBuf, offset, nc, n);
    RunAllOfPrefix(DecodeStep, old(predictors[..]), codes, Unpack(chunk), nc, n);
    SpliceOver(start, at, first, RunAll(DecodeStep, old(predictors[..]), codes, nc, n));
  }

  /**
   * The first `m` codes of `chunk` to their slots from index `at`: the
   * unpacking loop over its whole bytes and, when `m` is odd, the high nibble
   * of the byte after them.
   */
  static method UnpackCodes(chunk: seq<Byte>, outputBuf: array<Short>, at: nat, m: nat)
    requires |chunk| == (m + 1) / 2 && at + m <= outputBuf.Length
    modifies outputBuf
    ensures m <= |Unpack(chunk)| && outputBuf[..] == Splice(old(outputBuf[..]), at, Unpack(chunk)[..m])
  {
    var whole := m / 2;
    UnpackPrefix(chunk, whole);
    UnpackInto(chunk[..whole], outputBuf, at);
    if m % 2 == 1 {
      ghost var before := outputBuf[..];
      outputBuf[at + m - 1] := chunk[whole] / 16;
      LastCode(old(outputBuf[..]), before, outputBuf[..], at, chunk, m);
    } else {
      assert Unpack(chunk)[..m] == Unpack(chunk[..whole]);
    }
  }

  /** The unpacking loop: the two codes of each byte of `chunk`, high nibble first, from index `at` of `outputBuf`. */
  static method UnpackInto(chunk: seq<Byte>, outputBuf: array<Short>, at: nat)
    requires at + 2 * |chunk| <= outputBuf.Length
    modifies outputBuf
    ensures outputBuf[..] == Splice(old(outputBuf[..]), at, Unpack(chunk))
  {
    var outputIdx := at;
    var inputIdx := 0;
    while inputIdx < |chunk|
      invariant inputIdx <= |chunk| && outputIdx == at + 2 * inputIdx
      invariant outputBuf[..] == Splice(old(outputBuf[..]), at, Unpack(chunk[..inputIdx]))
    {
      var a := chunk[inputIdx];
      UnpackNext(old(outputBuf[..]), at, chunk, inputIdx);
      outputBuf[outputIdx] := a / 16;
      outputBuf[outputIdx + 1] := a % 16;
      outputIdx := outputIdx + 2;
      inputIdx := inputIdx + 1;
    }
    assert chunk[..|chunk|] == chunk;
  }

  /** Writing the two codes of byte `i` after the codes of the bytes before it. */
  static lemma UnpackNext(s: seq<Short>, at: nat, chunk: seq<Byte>, i: nat)
    requires i < |chunk| && at + 2 * |chunk| <= |s|
    ensures at + 2 * i + 1 < |s|
    ensures Splice(s, at, Unpack(chunk[..i]))[at + 2 * i := chunk[i] / 16][at + 2 * i + 1 := chunk[i] % 16]
         == Splice(s, at, Unpack(chunk[..i + 1]))
  {
    assert chunk[..i + 1][..i] == chunk[..i];
    var u := Unpack(chunk[..i + 1]);
    assert u == Unpack(chunk[..i]) + [chunk[i] / 16, chunk[i] % 16];
    var a := Splice(s, at, Unpack(chunk[..i]))[at + 2 * i := chunk[i] / 16][at + 2 * i + 1 := chunk[i] % 16];
    var b := Splice(s, at, u);
    forall j | 0 <= j < |s|
      ensures a[j] == b[j]
    {
    }
  }

  /** For an odd `m`, the high nibble of the byte after the whole ones completes the first `m` codes. */
  static lemma LastCode(s: seq<Short>, before: seq<Short>, after: seq<Short>, at: nat, chunk: seq<Byte>, m: nat)
    requires m % 2 == 1 && |chunk| == (m + 1) / 2 && at + m <= |s|
    requires before == Splice(s, at, Unpack(chunk[..m / 2]))
    requires at + m - 1 < |before| && after == before[at + m - 1 := chunk[m / 2] / 16]
    ensures after == Splice(s, at, Unpack(chunk)[..m])
  {
    var k := m / 2;
    UnpackPrefix(chunk, k);
    assert Unpack(chunk) == Unpack(chunk[..k]) + [chunk[k] / 16, chunk[k] % 16];
    var u := Unpack(chunk)[..m];
    assert u == Unpack(chunk[..k]) + [chunk[k] / 16];
    var b := Splice(s, at, u);
    forall j | 0 <= j < |s|
      ensures after[j] == b[j]
    {
      if j == at + m - 1 {
        assert b[j] == u[m - 1] == chunk[k] / 16;
      } else {
        assert after[j] == before[j];
      }
    }
  }

  // ----- Encoding -----

  /** Every code the encoders of all channels emit is a nibble. */
  static lemma RunCodesAreNibbles(preds: seq<Predictor>, xs: seq<Short>, nc: nat, m: nat)
    requires |preds| == nc && m * nc <= |xs|
    ensures forall j :: 0 <= j < m * nc ==> 0 <= RunAll(EncodeStep, preds, xs, nc, m)[j] <= 15
  {
    forall j | 0 <= j < m * nc
      ensures 0 <= RunAll(EncodeStep, preds, xs, nc, m)[j] <= 15
    {
      var fc := Decomposed(j, nc, m);
      CodesAreNibbles(preds[fc.1], Column(xs, nc, fc.1, m));
    }
  }

  /**
   * Encodes every frame `sampleData` still holds, up to 65536 frames at a
   * time, and returns the bytes written to the output stream: unpacked, they
   * are the codes of all those frames but a final odd one, each channel coded
   * from the zeroed predictor. A pass that pulls an odd number of frames holds
   * its last frame back for the next pass.
   */
  static method Encode(sampleData: SampleData) returns (written: seq<Byte>)
    requires sampleData.Valid() && sampleData.Complete() && sampleData.NumChannels() > 0
    modifies sampleData.Repr()
    ensures sampleData.Valid() && sampleData.Complete() && sampleData.Remaining() == 0
    ensures EvenFloor(old(sampleData.Remaining())) * sampleData.NumChannels() <= |old(sampleData.Pending())|
    ensures Unpack(written) == RunAll(EncodeStep, Fill(Start(), sampleData.NumChannels()), old(sampleData.Pending()),
                                      sampleData.NumChannels(), EvenFloor(old(sampleData.Remaining())))
  {
    var numChannels := sampleData.NumChannels();
    var inputBuf := new Short[BUF_SAMPLES * numChannels];
    var outputBuf := new Byte[BUF_SAMPLES * numChannels / 2];
    var predictors := new Predictor[numChannels](c => Start());
    assert predictors[..] == Fill(Start(), numChannels);
    written := EncodeRest(sampleData, predictors, inputBuf, outputBuf);
  }

  /**
   * The encoding loop: encodes every frame `sampleData` still holds,
   * continuing each channel's predictor from `predictors`.
   */
  static method EncodeRest(sampleData: SampleData, predictors: array<Predictor>, inputBuf: array<Short>, outputBuf: array<Byte>)
    returns (written: seq<Byte>)
    requires sampleData.Valid() && sampleData.Complete() && sampleData.NumChannels() > 0
    requires predictors.Length == sampleData.NumChannels()
    requires inputBuf.Length == BUF_SAMPLES * sampleData.NumChannels() && outputBuf.Length == BUF_SAMPLES * sampleData.NumChannels() / 2
    requires predictors !in sampleData.Repr() && inputBuf !in sampleData.Repr() && outputBuf !in sampleData.Repr()
    requires inputBuf as object != outputBuf as object
    modifies sampleData.Repr(), predictors, inputBuf, outputBuf
    ensures sampleData.Valid() && sampleData.Complete() && sampleData.Remaining() == 0
    ensures EvenFloor(old(sampleData.Remaining())) * sampleData.NumChannels() <= |old(sampleData.Pending())|
    ensures Unpack(written) == RunAll(EncodeStep, old(predictors[..]), old(sampleData.Pending()),
                                      sampleData.NumChannels(), EvenFloor(old(sampleData.Remaining())))
  {
    var numChannels := sampleData.NumChannels();
    ghost var all := sampleData.Pending();
    ghost var total: nat := sampleData.Remaining();
    ghost var s0 := predictors[..];
    var count: nat, remain: nat := 0, 0;
    ghost var carry: seq<Short> := [];
    ghost var rest, left: nat := all, total;
    written := [];
    assert carry + all == all;
    MulMono(EvenFloor(total), total, numChannels);
    while sampleData.Remaining() > 0
      invariant sampleData.Holds(rest, left)
      invariant Encoding(predictors, inputBuf, numChannels, count, remain, carry, written, rest, left, s0, all, total)
      decreases left
    {
      count, remain, carry, written, rest, left :=
        EncodePass(sampleData, predictors, inputBuf, outputBuf, numChannels, count, remain, carry, written, rest, left, s0, all, total);
    }
    assert EvenFloor(remain + left) == 0;
  }

  /**
   * The state between passes of the encoding loop, with `rest` the `left`
   * frames the stream still holds: `written` holds the codes of the frames
   * encoded so far, `carry` (at frame `count` of `inputBuf`) the frame held
   * back, and encoding what is held back and then `rest` completes the
   * encoding of all `total` frames `all` from the predictors `s0`.
   */
  static ghost predicate Encoding(predictors: array<Predictor>, inputBuf: array<Short>, nc: nat,
                                  count: nat, remain: nat, carry: seq<Short>, written: seq<Byte>,
                                  rest: seq<Short>, left: nat, s0: seq<Predictor>, all: seq<Short>, total: nat)
    reads predictors, inputBuf
  {
    && nc > 0 && predictors.Length == nc && |s0| == nc
    && |all| == total * nc && EvenFloor(total) * nc <= |all| && |rest| == left * nc
    && remain <= 1 && count + remain <= BUF_SAMPLES && |carry| == remain * nc
    && count * nc + remain * nc <= inputBuf.Length
    && inputBuf[count * nc..count * nc + remain * nc] == carry
    && EvenFloor(remain + left) * nc <= |carry + rest|
    && Unpack(written) + RunAll(EncodeStep, predictors[..], carry + rest, nc, EvenFloor(remain + left))
       == RunAll(EncodeStep, s0, all, nc, EvenFloor(total))
  }

  /** One pass of the encoding loop, appending its bytes to `written`; the loop's state is kept. */
  static method EncodePass(sampleData: SampleData, predictors: array<Predictor>, inputBuf: array<Short>, outputBuf: array<Byte>,
                           nc: nat, count: nat, remain: nat, ghost carry: seq<Short>, written: seq<Byte>,
                           ghost rest: seq<Short>, ghost left: nat, ghost s0: seq<Predictor>, ghost all: seq<Short>, ghost total: nat)
    returns (count': nat, remain': nat, ghost carry': seq<Short>, written': seq<Byte>, ghost rest': seq<Short>, ghost left': nat)
    requires sampleData.Holds(rest, left) && left > 0
    requires nc == sampleData.NumChannels()
    requires Encoding(predictors, inputBuf, nc, count, remain, carry, written, rest, left, s0, all, total)
    requires inputBuf.Length == BUF_SAMPLES * nc && outputBuf.Length == BUF_SAMPLES * nc / 2
    requires predictors !in sampleData.Repr() && inputBuf !in sampleData.Repr() && outputBuf !in sampleData.Repr()
    requires inputBuf as object != outputBuf as object
    modifies sampleData.Repr(), predictors, inputBuf, outputBuf
    ensures sampleData.Holds(rest', left') && left' < left
    ensures Encoding(predictors, inputBuf, nc, count', remain', carry', written', rest', left', s0, all, total)
  {
    var chunk;
    chunk, count', remain', carry', rest', left' :=
      EncodeBuffer(sampleData, predictors, inputBuf, outputBuf, nc, count, remain, carry, rest, left);
    written' := written + chunk;
    ghost var later := RunAll(EncodeStep, predictors[..], carry' + rest', nc, EvenFloor(remain' + left'));
    UnpackAppend(written, chunk);
    AppendAssoc(Unpack(written), Unpack(chunk), later);
  }

  /**
   * One pass of the encoding loop: moves the frame held back to the start of
   * `inputBuf`, pulls frames after it up to a whole buffer, holds back the
   * last if that makes their number odd, encodes the others in place and
   * returns their packed bytes. The stream's pending frames go from `rest`
   * (`left` frames) to `rest'` (`left'` frames).
   */
  static method EncodeBuffer(sampleData: SampleData, predictors: array<Predictor>, inputBuf: array<Short>, outputBuf: array<Byte>,
                             nc: nat, count: nat, remain: nat, ghost carry: seq<Short>, ghost rest: seq<Short>, ghost left: nat)
    returns (chunk: seq<Byte>, count': nat, remain': nat, ghost carry': seq<Short>, ghost rest': seq<Short>, ghost left': nat)
    requires sampleData.Holds(rest, left) && left > 0
    requires nc == sampleData.NumChannels() > 0
    requires predictors.Length == nc
    requires inputBuf.Length == BUF_SAMPLES * nc && outputBuf.Length == BUF_SAMPLES * nc / 2
    requires predictors !in sampleData.Repr() && inputBuf !in sampleData.Repr() && outputBuf !in sampleData.Repr()
    requires inputBuf as object != outputBuf as object
    requires remain <= 1 && count + remain <= BUF_SAMPLES && |carry| == remain * nc
    requires count * nc + remain * nc <= inputBuf.Length
    requires inputBuf[count * nc..count * nc + remain * nc] == carry
    modifies sampleData.Repr(), predictors, inputBuf, outputBuf
    ensures sampleData.Holds(rest', left') && left' < left
    ensures |rest'| == left' * nc
    ensures remain' <= 1 && count' + remain' <= BUF_SAMPLES && |carry'| == remain' * nc
    ensures count' * nc + remain' * nc <= inputBuf.Length
    ensures inputBuf[count' * nc..count' * nc + remain' * nc] == carry'
    ensures EvenFloor(remain + left) * nc <= |carry + rest|
    ensures EvenFloor(remain' + left') * nc <= |carry' + rest'|
    ensures Unpack(chunk) + RunAll(EncodeStep, predictors[..], carry' + rest', nc, EvenFloor(remain' + left'))
         == RunAll(EncodeStep, old(predictors[..]), carry + rest, nc, EvenFloor(remain + left))
  {
    ghost var s0 := predictors[..];
    var n;
    ghost var pulled;
    n, pulled := PullAfterCarry(sampleData, inputBuf, nc, count, remain, carry, rest, left);
    rest' := rest[n * nc..];
    left' := left - n;
    assert sampleData.Holds(rest', left');
    chunk, count', remain', carry' := EncodePulled(predictors, inputBuf, outputBuf, nc, remain, n,
                                                   carry, s0, rest, left, pulled, rest', left');
    assert sampleData.Holds(rest', left');
  }

  /**
   * The encoding half of a pass, after `n` frames were pulled behind the
   * `remain` frames held back (`carry`): holds back the last frame if their
   * number is odd, encodes the others in place and returns their packed
   * bytes.
   */
  static method EncodePulled(predictors: array<Predictor>, inputBuf: array<Short>, outputBuf: array<Byte>,
                             nc: nat, remain: nat, n: nat, ghost carry: seq<Short>, ghost s0: seq<Predictor>,
                             ghost p0: seq<Short>, ghost rem0: nat, ghost pulled: seq<Short>, ghost p1: seq<Short>, ghost rem1: nat)
    returns (chunk: seq<Byte>, count': nat, remain': nat, ghost carry': seq<Short>)
    requires predictors.Length == nc && inputBuf.Length == BUF_SAMPLES * nc && outputBuf.Length == BUF_SAMPLES * nc / 2
    requires inputBuf as object != outputBuf as object
    requires remain <= 1 && |carry| == remain * nc && |p0| == rem0 * nc && n <= rem0 && remain + n <= BUF_SAMPLES
    requires n * nc <= |p0| && p1 == p0[n * nc..] && rem1 == rem0 - n && s0 == predictors[..] && pulled == inputBuf[..] && remain * nc + n * nc <= |pulled| && pulled[..remain * nc + n * nc] == carry + p0[..n * nc]
    modifies predictors, inputBuf, outputBuf
    ensures count' + remain' == remain + n && remain' <= 1 && |carry'| == remain' * nc
    ensures count' * nc + remain' * nc <= inputBuf.Length && inputBuf[count' * nc..count' * nc + remain' * nc] == carry'
    ensures EvenFloor(remain + rem0) * nc <= |carry + p0|
    ensures EvenFloor(remain' + rem1) * nc <= |carry' + p1|
    ensures Unpack(chunk) + RunAll(EncodeStep, predictors[..], carry' + p1, nc, EvenFloor(remain' + rem1))
         == RunAll(EncodeStep, s0, carry + p0, nc, EvenFloor(remain + rem0))
  {
    var got := remain + n;
    remain' := got % 2;
    count' := got - remain';
    chunk := EncodeFront(predictors, inputBuf, outputBuf, nc, count', s0, pulled);
    PassArith(nc, remain, n, rem0, count', remain');
    carry' := pulled[count' * nc..count' * nc + remain' * nc];
    EncodeAdvance(s0, carry, p0, pulled, nc, remain, n, rem0, count', remain',
                  Unpack(chunk), predictors[..], carry', p1, remain' + rem1);
    SliceOfTail(inputBuf[..], pulled, count' * nc, count' * nc + remain' * nc);
  }

  /**
   * The pulling half of a pass: moves the frame held back, from frame
   * `count` of `inputBuf`, to its start, and pulls frames after it up to a
   * whole buffer; the buffer then holds the frame held back and the frames
   * pulled.
   */
  static method PullAfterCarry(sampleData: SampleData, inputBuf: array<Short>, nc: nat, count: nat, remain: nat,
                               ghost carry: seq<Short>, ghost rest: seq<Short>, ghost left: nat)
    returns (n: nat, ghost pulled: seq<Short>)
    requires sampleData.Holds(rest, left) && left > 0
    requires nc == sampleData.NumChannels() > 0
    requires inputBuf.Length == BUF_SAMPLES * nc && inputBuf !in sampleData.Repr()
    requires remain <= 1 && count + remain <= BUF_SAMPLES && |carry| == remain * nc
    requires count * nc + remain * nc <= inputBuf.Length
    requires inputBuf[count * nc..count * nc + remain * nc] == carry
    modifies sampleData.Repr(), inputBuf
    ensures 0 < n <= left && remain + n <= BUF_SAMPLES && n * nc <= |rest|
    ensures sampleData.Holds(rest[n * nc..], left - n)
    ensures |rest| == left * nc && |rest[n * nc..]| == (left - n) * nc
    ensures pulled == inputBuf[..] && remain * nc + n * nc <= |pulled|
    ensures pulled[..remain * nc + n * nc] == carry + rest[..n * nc]
  {
    MoveCarry(sampleData, inputBuf, nc, count, remain, carry, rest, left);
    ghost var before := inputBuf[..];
    sampleData.RoomForYield(remain, BUF_SAMPLES - remain, nc, inputBuf.Length);
    n := sampleData.GetSamples(inputBuf, remain, BUF_SAMPLES - remain);
    pulled := inputBuf[..];
    PulledFrames(before, carry, rest, pulled, nc, remain, n);
  }

  /** Moves the frame held back, from frame `count` of `inputBuf`, to its start, beside the stream `sampleData`. */
  static method MoveCarry(ghost sampleData: SampleData, inputBuf: array<Short>, nc: nat, count: nat, remain: nat,
                          ghost carry: seq<Short>, ghost rest: seq<Short>, ghost left: nat)
    requires sampleData.Holds(rest, left)
    requires inputBuf !in sampleData.Repr() && |carry| == remain * nc
    requires count * nc + remain * nc <= inputBuf.Length
    requires inputBuf[count * nc..count * nc + remain * nc] == carry
    modifies inputBuf
    ensures sampleData.Holds(rest, left)
    ensures inputBuf[..remain * nc] == carry
  {
    ArrayCopy(inputBuf, count * nc, inputBuf, 0, remain * nc);
    SpliceMiddle(old(inputBuf[..]), 0, carry);
  }

  /** After the pull, the buffer holds the frame held back and then the frames pulled. */
  static lemma PulledFrames(before: seq<Short>, carry: seq<Short>, p0: seq<Short>, pulled: seq<Short>, nc: nat, remain: nat, n: nat)
    requires |carry| == remain * nc && n * nc <= |p0| && remain * nc + n * nc <= |before| == |pulled|
    requires before[..remain * nc] == carry
    requires pulled == Splice(before, remain * nc, p0[..n * nc])
    ensures remain * nc + n * nc <= |pulled| && pulled[..remain * nc + n * nc] == carry + p0[..n * nc]
  {
    MulAdd(remain, n, nc);
    SpliceMiddle(before, remain * nc, p0[..n * nc]);
    var x := pulled[..remain * nc + n * nc];
    forall j | 0 <= j < |x|
      ensures x[j] == (carry + p0[..n * nc])[j]
    {
    }
  }

  /**
   * The bookkeeping of a pass: the codes of the first `m` frames pulled,
   * followed by the codes, from the predictors they leave, of what is still to
   * encode (the frame held back, then those not yet pulled), are the codes of
   * everything that was still to encode before the pass.
   */
  static lemma EncodeAdvance(s0: seq<Predictor>, carry: seq<Short>, p0: seq<Short>, pulled: seq<Short>,
                             nc: nat, remain: nat, n: nat, rem0: nat, m: nat, r: nat,
                             codes: seq<Short>, preds1: seq<Predictor>, carry1: seq<Short>, p1: seq<Short>, k: nat)
    requires |s0| == nc && |carry| == remain * nc && |p0| == rem0 * nc && n <= rem0
    requires m == EvenFloor(remain + n) && remain * nc + n * nc <= |pulled|
    requires pulled[..remain * nc + n * nc] == carry + p0[..n * nc]
    requires m * nc <= remain * nc + n * nc && n * nc <= |p0|
    requires r == remain + n - m && carry1 == pulled[m * nc..m * nc + r * nc] && p1 == p0[n * nc..] && k == remain + rem0 - m
    requires codes == RunAll(EncodeStep, s0, pulled, nc, m) && preds1 == FinalAll(EncodeStep, s0, pulled, nc, m)
    ensures EvenFloor(remain + rem0) * nc <= |carry + p0|
    ensures EvenFloor(k) * nc <= |carry1 + p1|
    ensures codes + RunAll(EncodeStep, preds1, carry1 + p1, nc, EvenFloor(k))
         == RunAll(EncodeStep, s0, carry + p0, nc, EvenFloor(remain + rem0))
  {
    var e := EvenFloor(remain + rem0);
    PassArith(nc, remain, n, rem0, m, r);
    CarrySplit(carry, p0, pulled, m * nc, n * nc, m * nc + r * nc);
    assert EvenFloor(k) == e - m;
    RunAllResume(EncodeStep, s0, carry + p0, pulled, nc, m, e, codes, preds1, carry1 + p1, EvenFloor(k));
  }

  /** Where two sequences agree from `a` on, they agree on every slice from `a`. */
  static lemma SliceOfTail<X>(s: seq<X>, t: seq<X>, a: nat, b: nat)
    requires a <= b <= |s| == |t| && s[a..] == t[a..]
    ensures s[a..b] == t[a..b]
  {
    assert s[a..b] == s[a..][..b - a];
    assert t[a..b] == t[a..][..b - a];
  }

  /** The counts of a pass, in samples. */
  static lemma PassArith(nc: nat, remain: nat, n: nat, rem0: nat, m: nat, r: nat)
    requires n <= rem0 && m == EvenFloor(remain + n) && r == remain + n - m
    ensures m * nc + r * nc == remain * nc + n * nc
    ensures (remain + n) * nc == remain * nc + n * nc && (remain + rem0) * nc == remain * nc + rem0 * nc
    ensures m * nc <= remain * nc + n * nc && n * nc <= rem0 * nc
    ensures m <= EvenFloor(remain + rem0) && EvenFloor(remain + rem0 - m) == EvenFloor(remain + rem0) - m
    ensures EvenFloor(remain + rem0) * nc <= (remain + rem0) * nc
  {
    PassCounts(remain, n, rem0, m, r);
    var e := EvenFloor(remain + rem0);
    PassProducts(nc, remain, n, rem0, m, r, e);
  }

  /** The frame counts a pass works with: what it encodes, holds back and leaves for the next passes. */
  static lemma PassCounts(remain: nat, n: nat, rem0: nat, m: nat, r: nat)
    requires n <= rem0 && m == EvenFloor(remain + n) && r == remain + n - m
    ensures m + r == remain + n && m <= remain + n
    ensures m <= EvenFloor(remain + rem0) <= remain + rem0 && EvenFloor(remain + rem0 - m) == EvenFloor(remain + rem0) - m
  {
  }

  /** The same counts in samples of `nc` channels. */
  static lemma PassProducts(nc: nat, remain: nat, n: nat, rem0: nat, m: nat, r: nat, e: nat)
    requires m + r == remain + n && m <= remain + n && n <= rem0 && e <= remain + rem0
    ensures m * nc + r * nc == remain * nc + n * nc
    ensures (remain + n) * nc == remain * nc + n * nc && (remain + rem0) * nc == remain * nc + rem0 * nc
    ensures m * nc <= remain * nc + n * nc && n * nc <= rem0 * nc
    ensures e * nc <= (remain + rem0) * nc
  {
    MulAdd(remain, n, nc);
    MulAdd(m, r, nc);
    MulAdd(remain, rem0, nc);
    MulMono(m, remain + n, nc);
    MulMono(n, rem0, nc);
    MulMono(e, remain + rem0, nc);
  }

  /**
   * In samples: when the pulled buffer starts with the carried samples and
   * then the first `pn` pending ones, its first `cut` samples are those of
   * everything still to encode, and what follows them there, then the
   * pending samples not pulled, is the rest of it.
   */
  static lemma CarrySplit(carry: seq<Short>, p0: seq<Short>, pulled: seq<Short>, cut: nat, pn: nat, got: nat)
    requires pn <= |p0| && got == |carry| + pn && cut <= got <= |pulled|
    requires pulled[..got] == carry + p0[..pn]
    ensures (carry + p0)[..cut] == pulled[..cut]
    ensures pulled[cut..got] + p0[pn..] == (carry + p0)[cut..]
  {
    var xs := carry + p0;
    assert xs[..got] == carry + p0[..pn];
    assert xs[..cut] == xs[..got][..cut];
    assert pulled[..cut] == pulled[..got][..cut];
    assert pulled[cut..got] == xs[cut..got];
    assert xs[got..] == p0[pn..];
    assert xs[cut..] == xs[cut..got] + xs[got..];
  }

  /** `EncodeChunk`, stated for the predictors `s0` and samples `xs` it starts from; the buffer past the frames encoded keeps its samples. */
  static method EncodeFront(predictors: array<Predictor>, inputBuf: array<Short>, outputBuf: array<Byte>, nc: nat, m: nat,
                            ghost s0: seq<Predictor>, ghost xs: seq<Short>)
    returns (chunk: seq<Byte>)
    requires s0 == predictors[..] && xs == inputBuf[..]
    requires predictors.Length == nc && m % 2 == 0 && m <= BUF_SAMPLES
    requires inputBuf.Length == BUF_SAMPLES * nc && outputBuf.Length == BUF_SAMPLES * nc / 2
    requires inputBuf as object != outputBuf as object
    modifies predictors, inputBuf, outputBuf
    ensures m * nc <= |xs| && inputBuf[..][m * nc..] == xs[m * nc..]
    ensures predictors[..] == FinalAll(EncodeStep, s0, xs, nc, m)
    ensures Unpack(chunk) == RunAll(EncodeStep, s0, xs, nc, m)
  {
    chunk := EncodeChunk(predictors, inputBuf, outputBuf, nc, m);
    SpliceOutside(xs, RunAll(EncodeStep, s0, xs, nc, m), m * nc, |xs|);
    assert inputBuf[..][m * nc..] == inputBuf[..][m * nc..|xs|];
  }

  /**
   * The encoding half of a pass: runs each channel's predictor over the first
   * `m` frames of `inputBuf`, replacing every sample by its code, then packs
   * the codes into `outputBuf` and returns those bytes.
   */
  static method EncodeChunk(predictors: array<Predictor>, inputBuf: array<Short>, outputBuf: array<Byte>, nc: nat, m: nat)
    returns (chunk: seq<Byte>)
    requires predictors.Length == nc && m % 2 == 0 && m <= BUF_SAMPLES
    requires inputBuf.Length == BUF_SAMPLES * nc && outputBuf.Length == BUF_SAMPLES * nc / 2
    requires inputBuf as object != outputBuf as object
    modifies predictors, inputBuf, outputBuf
    ensures m * nc <= inputBuf.Length
    ensures inputBuf[..] == Splice(old(inputBuf[..]), 0, RunAll(EncodeStep, old(predictors[..]), old(inputBuf[..]), nc, m))
    ensures predictors[..] == FinalAll(EncodeStep, old(predictors[..]), old(inputBuf[..]), nc, m)
    ensures Unpack(chunk) == RunAll(EncodeStep, old(predictors[..]), old(inputBuf[..]), nc, m)
    ensures |chunk| <= outputBuf.Length && outputBuf[..] == Splice(old(outputBuf[..]), 0, chunk)
  {
    ghost var xs := inputBuf[..];
    ghost var s0 := predictors[..];
    MulMono(m, BUF_SAMPLES, nc);
    RunInto(EncodeStep, predictors, inputBuf[..], inputBuf, 0, nc, m);
    ghost var codes := RunAll(EncodeStep, s0, xs, nc, m);
    SpliceMiddle(xs, 0, codes);
    RunCodesAreNibbles(s0, xs, nc, m);
    chunk := PackCodes(inputBuf, outputBuf, nc, m, codes);
  }

  /**
   * The packing half of a pass: packs the codes of the first `m` frames of
   * `inputBuf` into `outputBuf` and returns those bytes.
   */
  static method PackCodes(inputBuf: array<Short>, outputBuf: array<Byte>, nc: nat, m: nat, ghost codes: seq<Short>)
    returns (chunk: seq<Byte>)
    requires m % 2 == 0 && m <= BUF_SAMPLES && inputBuf.Length == BUF_SAMPLES * nc && outputBuf.Length == BUF_SAMPLES * nc / 2
    requires inputBuf as object != outputBuf as object
    requires |codes| == m * nc <= inputBuf.Length && inputBuf[..m * nc] == codes
    requires forall j :: 0 <= j < |codes| ==> 0 <= codes[j] <= 15
    modifies outputBuf
    ensures Unpack(chunk) == codes
    ensures |chunk| <= outputBuf.Length && outputBuf[..] == Splice(old(outputBuf[..]), 0, chunk)
  {
    HalfFrames(m, nc);
    var outputEnd := m * nc / 2;
    MulMono(m, BUF_SAMPLES, nc);
    DivMono(m * nc, BUF_SAMPLES * nc, 2);
    assert inputBuf[..2 * outputEnd] == codes;
    PackInto(inputBuf, outputBuf, outputEnd);
    SpliceMiddle(old(outputBuf[..]), 0, Pack(codes));
    chunk := outputBuf[..outputEnd];
    UnpackPack(codes);
  }

  /** The packing loop: the codes `inputBuf[..2 * outputEnd]`, two to a byte, to the start of `outputBuf`. */
  static method PackInto(inputBuf: array<Short>, outputBuf: array<Byte>, outputEnd: nat)
    requires 2 * outputEnd <= inputBuf.Length && outputEnd <= outputBuf.Length
    requires inputBuf as object != outputBuf as object
    modifies outputBuf
    ensures outputBuf[..] == Splice(old(outputBuf[..]), 0, Pack(inputBuf[..2 * outputEnd]))
  {
    ghost var s0, codes := outputBuf[..], inputBuf[..];
    var inputIdx := 0;
    var outputIdx := 0;
    while outputIdx < outputEnd
      invariant outputIdx <= outputEnd && inputIdx == 2 * outputIdx
      invariant outputBuf[..] == Splice(s0, 0, Pack(codes[..inputIdx]))
    {
      PackNext(s0, codes, outputIdx, outputEnd);
      outputBuf[outputIdx] := PackByte(inputBuf[inputIdx], inputBuf[inputIdx + 1]);
      outputIdx := outputIdx + 1;
      inputIdx := inputIdx + 2;
    }
  }

  /** Writing the byte of codes `2i` and `2i + 1` after the bytes of the codes before them. */
  static lemma PackNext(s: seq<Byte>, codes: seq<Short>, i: nat, end: nat)
    requires i < end && 2 * end <= |codes| && end <= |s|
    ensures Splice(s, 0, Pack(codes[..2 * i]))[i := PackByte(codes[2 * i], codes[2 * i + 1])]
         == Splice(s, 0, Pack(codes[..2 * i + 2]))
  {
    var pre := codes[..2 * i + 2];
    assert pre[..2 * i] == codes[..2 * i];
    assert Pack(pre) == Pack(codes[..2 * i]) + [PackByte(codes[2 * i], codes[2 * i + 1])];
    var a := Splice(s, 0, Pack(codes[..2 * i]))[i := PackByte(codes[2 * i], codes[2 * i + 1])];
    var b := Splice(s, 0, Pack(pre));
    forall j | 0 <= j < |s|
      ensures a[j] == b[j]
    {
    }
  }
}
