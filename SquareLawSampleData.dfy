import opened JavaInt
import opened Frames

/**
 * The older 8-bit companding decoder (`CompressedSampleData` of the trunk
 * tree): every stream byte is one sample, decoded on its own by a square law.
 * The input stream is held as the bytes not yet read, `stream`.
 */
class SquareLawSampleData {
  const numChannels: nat
  const sampleRate: int
  var stream: seq<Byte>
  var samplesRemaining: int

  /** Prepares to decode `numSamples` frames from the start of the stream `input`. */
  constructor (input: seq<Byte>, numChannels: nat, sampleRate: int, numSamples: int)
    ensures stream == input && this.numChannels == numChannels && this.sampleRate == sampleRate
    ensures samplesRemaining == numSamples
  {
    this.stream := input;
    this.numChannels := numChannels;
    this.sampleRate := sampleRate;
    this.samplesRemaining := numSamples;
  }

  /**
   * The sample of the byte read as the signed value `a`: `a * a * 2`, negated
   * for negative `a`. The 16-bit cast of the original never wraps here, since
   * the product lies in [-32768, 32258]; the result type states it.
   */
  static function Decode(b: Byte): Short
  {
    var a := Signed(b);
    SquareBound(a);
    if a < 0 then a * -a * 2 else a * a * 2
  }

  static lemma SquareBound(a: int)
    requires -128 <= a <= 127
    ensures 0 <= a * a <= 16384 && a * -a == -(a * a) && (a >= 0 ==> a * a <= 16129)
  {
    if a < 0 {
      MulMono(-a, 128, -a);
      MulMono(-a, 128, 128);
    } else {
      MulMono(a, 127, a);
      MulMono(a, 127, 127);
    }
  }

  /** Decoded samples lie in [-32768, 32258], and both ends are reached. */
  static lemma DecodeRange(b: Byte)
    ensures -32768 <= Decode(b) <= 32258
    ensures Decode(128) == -32768 && Decode(127) == 32258
  {
    SquareBound(Signed(b));
  }

  /** Decoding does not decrease as the signed byte grows. */
  static lemma DecodeMonotone(b: Byte, c: Byte)
    requires Signed(b) <= Signed(c)
    ensures Decode(b) <= Decode(c)
  {
    var x, y := Signed(b), Signed(c);
    SquareBound(x);
    SquareBound(y);
    if 0 <= x {
      SquareMono(x, y);
    } else if y < 0 {
      SquareMono(-y, -x);
      assert (-y) * (-y) == y * y && (-x) * (-x) == x * x;
    }
  }

  static lemma SquareMono(u: nat, v: nat)
    requires u <= v
    ensures u * u <= v * v
  {
    MulMono(u, v, u);
    MulMono(u, v, v);
  }

  /** Decoding is odd: bytes of opposite signed values decode to opposite samples. */
  static lemma DecodeOdd(b: Byte, c: Byte)
    requires Signed(c) == -Signed(b)
    ensures Decode(c) == -Decode(b)
  {
    var a := Signed(b);
    SquareBound(a);
    SquareBound(-a);
    assert (-a) * (-a) == a * a;
  }

  /** The stream still holds one byte per channel for every frame it declares. */
  ghost predicate Complete()
    reads this
  {
    numChannels > 0 && samplesRemaining >= 0 && samplesRemaining * numChannels <= |stream|
  }

  /** The samples still to be delivered: each declared byte, decoded on its own. */
  ghost function Pending(): (p: seq<Short>)
    requires Complete()
    reads this
    ensures |p| == samplesRemaining * numChannels
  {
    Map(Decode, stream[..samplesRemaining * numChannels])
  }

  /**
   * Reads the bytes of up to `count` frames (no more than remain, nor than
   * 65536), decodes the whole frames read and places them at frame `offset`.
   */
  method GetSamples(outputBuf: array<Short>, offset: nat, count: nat) returns (n: nat)
    requires numChannels > 0 && (offset + Max(0, Wanted(count, samplesRemaining))) * numChannels <= outputBuf.Length
    modifies this, outputBuf
    ensures n <= count && n <= BUF_SAMPLES && (n == 0 || n <= old(samplesRemaining))
    ensures samplesRemaining == old(samplesRemaining) - n
    ensures stream == old(stream)[ReadFully(|old(stream)|, Wanted(count, old(samplesRemaining)) * numChannels)..]
    ensures WholeFrames(n, ReadFully(|old(stream)|, Wanted(count, old(samplesRemaining)) * numChannels), numChannels)
    ensures n * numChannels <= |old(stream)| && offset * numChannels + n * numChannels <= outputBuf.Length
    ensures outputBuf[..] == Splice(old(outputBuf[..]), offset * numChannels, Map(Decode, old(stream)[..n * numChannels]))
    ensures old(Complete()) ==> Complete() && n == Min(count, Min(old(samplesRemaining), BUF_SAMPLES))
    ensures old(Complete()) ==> n * numChannels <= |old(Pending())|
    ensures old(Complete()) ==>
      outputBuf[..] == Splice(old(outputBuf[..]), offset * numChannels, old(Pending())[..n * numChannels])
    ensures old(Complete()) ==> Pending() == old(Pending())[n * numChannels..]
    ensures old(Complete()) ==> Progress(n, count, old(samplesRemaining))
  {
    ghost var room := Max(0, Wanted(count, samplesRemaining));
    var got, chunk;
    n, got, chunk := ReadFrames(count);
    var nc := numChannels;
    MulAdd(offset, n, nc);
    MulMono(offset + n, offset + room, nc);
    MapInto(outputBuf, offset, chunk, nc, n, Decode);
  }

  /**
   * The reading half of a pull: clamps the request to the frames remaining and
   * to the buffer, reads those bytes, and counts the whole frames read; `chunk`
   * holds the bytes of those frames.
   */
  method ReadFrames(count: nat) returns (n: nat, got: nat, chunk: seq<Byte>)
    requires numChannels > 0
    modifies this
    ensures n <= count && n <= BUF_SAMPLES && (n == 0 || n <= old(samplesRemaining))
    ensures got == ReadFully(|old(stream)|, Wanted(count, old(samplesRemaining)) * numChannels)
    ensures WholeFrames(n, got, numChannels) && got <= |old(stream)|
    ensures chunk == old(stream)[..n * numChannels] && stream == old(stream)[got..]
    ensures samplesRemaining == old(samplesRemaining) - n
    ensures old(Complete()) ==> Complete() && n == Min(count, Min(old(samplesRemaining), BUF_SAMPLES))
    ensures old(Complete()) ==> n * numChannels <= |old(Pending())|
    ensures old(Complete()) ==> Map(Decode, chunk) == old(Pending())[..n * numChannels]
    ensures old(Complete()) ==> Pending() == old(Pending())[n * numChannels..]
  {
    ghost var wasComplete := Complete();
    ghost var p0 := if wasComplete then Pending() else [];
    var rem := samplesRemaining;
    var nc := numChannels;
    var rest := stream;
    var want;
    want, got, n := PullCounts(|rest|, rem, count, nc);
    chunk := rest[..n * nc];
    samplesRemaining := rem - n;
    stream := rest[got..];
    if wasComplete {
      BytePull(Decode, rest, nc, rem, want, got, n);
      assert samplesRemaining == rem - n && numChannels == nc && |stream| == |rest| - got;
      assert Complete();
    }
  }
}
