import opened JavaInt
import opened Frames

/** An in-memory stream: a cursor over an interleaved array of `numSamples` frames. */
class ArraySampleData {
  const inputBuf: array<Short>
  const numChannels: nat
  const sampleRate: int
  const numSamples: nat
  var inputOffset: int

  /** The cursor lies within the frames, and the array holds all of them. */
  ghost predicate Valid()
    reads this
  {
    0 <= inputOffset <= numSamples && numSamples * numChannels <= inputBuf.Length
  }

  /** Wraps an existing array; nothing is copied and nothing is checked. */
  constructor (buf: array<Short>, numChannels: nat, sampleRate: int, numSamples: nat)
    ensures inputBuf == buf && this.numChannels == numChannels && this.sampleRate == sampleRate
    ensures this.numSamples == numSamples && inputOffset == 0
    ensures Valid() <==> numSamples * numChannels <= buf.Length
  {
    this.inputBuf := buf;
    this.numChannels := numChannels;
    this.sampleRate := sampleRate;
    this.numSamples := numSamples;
    this.inputOffset := 0;
  }

  /**
   * Materialises a stream: copies its channel count, rate and remaining frame
   * count, then pulls frames at a running offset until it reports none left.
   */
  constructor Drain(sampleData: SampleData)
    requires sampleData.Valid() && sampleData.Complete() && sampleData.NumChannels() > 0
    modifies sampleData.Repr()
    ensures numChannels == sampleData.NumChannels() && sampleRate == sampleData.SampleRate()
    ensures numSamples == old(sampleData.Remaining()) && inputOffset == 0
    ensures fresh(inputBuf) && inputBuf[..] == old(sampleData.Pending())
    ensures Valid() && sampleData.Valid() && sampleData.Remaining() == 0
  {
    var nc := sampleData.NumChannels();
    var total := sampleData.Remaining() as nat;
    var buf := new Short[total * nc];
    DrainInto(sampleData, buf);
    numChannels := nc;
    sampleRate := sampleData.SampleRate();
    numSamples := total;
    inputBuf := buf;
    inputOffset := 0;
  }

  /** Moves the cursor; like the original, any value is accepted. */
  method SetOffset(offset: int)
    modifies this
    ensures inputOffset == offset
  {
    inputOffset := offset;
  }

  /** The number of frames still to be read. */
  function Remaining(): (r: int)
    reads this
    ensures Valid() ==> 0 <= r <= numSamples
  {
    numSamples - inputOffset
  }

  /** The frames after the cursor, interleaved. */
  ghost function Pending(): (p: seq<Short>)
    requires Valid()
    reads this, inputBuf
    ensures |p| == Remaining() * numChannels
  {
    MulMono(inputOffset, numSamples, numChannels);
    assert Remaining() * numChannels == numSamples * numChannels - inputOffset * numChannels;
    inputBuf[inputOffset * numChannels .. numSamples * numChannels]
  }

  /**
   * Copies `min(outputCount, Remaining())` frames from the cursor to frame
   * `outputOffset` of `outputBuf` and advances the cursor past them.
   */
  method GetSamples(outputBuf: array<Short>, outputOffset: nat, outputCount: nat) returns (n: nat)
    requires Valid()
    requires (outputOffset + Min(outputCount, Remaining())) * numChannels <= outputBuf.Length
    modifies this, outputBuf
    ensures Valid() && n == Min(outputCount, old(Remaining()))
    ensures inputOffset == old(inputOffset) + n
    ensures n * numChannels <= |old(Pending())| && (outputOffset + n) * numChannels <= outputBuf.Length
    ensures outputBuf[..] == Splice(old(outputBuf[..]), outputOffset * numChannels, old(Pending())[..n * numChannels])
    ensures outputBuf != inputBuf ==> Pending() == old(Pending())[n * numChannels..]
    ensures Progress(n, outputCount, old(Remaining()))
  {
    ghost var before := outputBuf[..];
    ghost var all := inputBuf[..];
    ghost var p0 := Pending();
    var offset: nat := inputOffset;
    n := if outputCount > numSamples - offset then (numSamples - offset) as nat else outputCount;
    var nc := numChannels;
    var src := offset * nc;
    var dst := outputOffset * nc;
    var len := n * nc;
    assert n == Min(outputCount, Remaining());
    CopyFacts(all, offset, outputOffset, n, nc, numSamples, outputBuf.Length);
    assert src + len <= numSamples * nc <= inputBuf.Length && dst + len <= outputBuf.Length;
    assert p0 == all[src..numSamples * nc] && len <= |p0|;
    assert Progress(n, outputCount, Remaining());
    ArrayCopy(inputBuf, src, outputBuf, dst, len);
    assert outputBuf[..] == Splice(before, dst, p0[..len]);
    inputOffset := offset + n;
    if outputBuf != inputBuf {
      assert inputBuf[..] == all;
      assert Pending() == all[(offset + n) * nc..numSamples * nc] == p0[len..];
    }
  }

  /** The slots a copy of `n` frames from frame `offset` reads and writes, and the frames it leaves pending. */
  static lemma CopyFacts<X>(all: seq<X>, offset: int, outputOffset: nat, n: nat, nc: nat, numSamples: nat, outLen: nat)
    requires 0 <= offset && offset + n <= numSamples && numSamples * nc <= |all| && (outputOffset + n) * nc <= outLen
    ensures offset * nc + n * nc <= numSamples * nc && (offset + n) * nc == offset * nc + n * nc
    ensures outputOffset * nc + n * nc <= outLen
    ensures all[offset * nc..numSamples * nc][..n * nc] == all[offset * nc..offset * nc + n * nc]
    ensures all[offset * nc..numSamples * nc][n * nc..] == all[(offset + n) * nc..numSamples * nc]
  {
    MulAdd(offset, n, nc);
    MulAdd(outputOffset, n, nc);
    MulMono(offset + n, numSamples, nc);
  }
}

/**
 * `System.arraycopy`: the `length` elements of `src` from `srcPos` on replace
 * those of `dest` from `destPos` on, as if copied through a temporary array, so
 * that overlapping ranges of one array are copied correctly too.
 */
method ArrayCopy<X>(src: array<X>, srcPos: nat, dest: array<X>, destPos: nat, length: nat)
  requires srcPos + length <= src.Length && destPos + length <= dest.Length
  modifies dest
  ensures dest[..] == Splice(old(dest[..]), destPos, old(src[srcPos..srcPos + length]))
{
  ghost var before := dest[..];
  var block := src[srcPos..srcPos + length];
  forall i | 0 <= i < length {
    dest[destPos + i] := block[i];
  }
  SpliceFrom(dest[..], before, destPos, block);
}

/**
 * The draining loop: pulls frames into `buf` at a running offset, asking each
 * time for all the frames not yet placed, until the stream reports none left.
 */
method DrainInto(sampleData: SampleData, buf: array<Short>)
  requires sampleData.Valid() && sampleData.Complete() && sampleData.NumChannels() > 0
  requires buf !in sampleData.Repr() && buf.Length == sampleData.Remaining() * sampleData.NumChannels()
  modifies sampleData.Repr(), buf
  ensures sampleData.Valid() && sampleData.Remaining() == 0
  ensures buf[..] == old(sampleData.Pending())
{
  var nc := sampleData.NumChannels();
  var total := sampleData.Remaining() as nat;
  ghost var all := sampleData.Pending();
  ghost var rest, left: nat := all, total;
  var offset: nat := 0;
  ghost var filled: nat := 0;
  while sampleData.Remaining() > 0
    invariant sampleData.Holds(rest, left) && sampleData.NumChannels() == nc
    invariant offset + left == total && filled == offset * nc && filled <= buf.Length
    invariant buf[..filled] + rest == all
    decreases left
  {
    ghost var before, p := buf[..], rest;
    var n;
    n, rest := DrainPull(sampleData, buf, nc, offset, total, rest, left);
    DrainStep(before, buf[..], p, rest, filled, n * nc);
    MulAdd(offset, n, nc);
    offset := offset + n;
    filled := filled + n * nc;
    left := left - n;
  }
  MulZero(left, nc);
  DrainDone(buf[..], filled, rest, all);
}

/** One pull of the draining loop: asks for all `left` frames not yet placed, at frame `offset` of `buf`. */
method DrainPull(sampleData: SampleData, buf: array<Short>, nc: nat, offset: nat, total: nat, ghost rest: seq<Short>, ghost left: nat)
  returns (n: nat, ghost rest': seq<Short>)
  requires sampleData.Holds(rest, left) && nc == sampleData.NumChannels() > 0 && left > 0
  requires buf !in sampleData.Repr() && buf.Length == total * nc && offset + left == total
  modifies sampleData.Repr(), buf
  ensures sampleData.Holds(rest', left - n) && 0 < n <= left && n * nc <= |rest| && offset * nc + n * nc <= buf.Length
  ensures buf[..] == Splice(old(buf[..]), offset * nc, rest[..n * nc]) && rest' == rest[n * nc..]
{
  sampleData.RoomForYield(offset, total - offset, nc, buf.Length);
  n := sampleData.GetSamples(buf, offset, total - offset);
  rest' := sampleData.Pending();
}

/** One pull of the draining loop extends the filled prefix by the frames it took from the stream. */
lemma DrainStep<X>(before: seq<X>, after: seq<X>, p: seq<X>, rest: seq<X>, at: nat, k: nat)
  requires k <= |p| && at + k <= |before|
  requires after == Splice(before, at, p[..k]) && rest == p[k..]
  ensures after[..at + k] + rest == before[..at] + p
{
  SpliceMiddle(before, at, p[..k]);
  assert after[..at + k] == before[..at] + after[at..at + k];
  assert p[..k] + p[k..] == p;
}

/** Once nothing is pending and the whole buffer is filled, the buffer is everything the stream held. */
lemma DrainDone<X>(buf: seq<X>, at: nat, rest: seq<X>, all: seq<X>)
  requires at == |buf| && rest == [] && buf[..at] + rest == all
  ensures buf == all
{
  assert buf[..at] == buf;
}
