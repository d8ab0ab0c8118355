import opened JavaInt
import opened Frames
import opened Wrappers

/** Why a byte stream is not a WAV file this reader accepts. */
datatype WavError =
  | NoRiff            // "Riff header not found."
  | NoWave            // "Wave header not found."
  | NoFmt             // "Format header not found."
  | UnsupportedFormat // "Unsupported sample format."
  | NoDataChunk       // the stream ends before a "data" chunk; the original loops forever here
  | ZeroBlockAlign    // the data length is divided by a block size of zero

/** What the header parser extracts from a WAV stream. */
datatype WavFormat = WavFormat(numChannels: nat, sampleRate: int, bytesPerSample: nat, dataStart: nat, samplesRemaining: int)

/**
 * A WAV (RIFF WAVE) reader over a finite byte stream, held as the bytes not yet
 * read, and the 16-bit WAV writer. Reads past the end of the stream yield 0xFF, as Java's
 * `read() & 0xFF` does for the end-of-stream value -1.
 */
class WavSampleData {
  const numChannels: nat
  const sampleRate: int
  const bytesPerSample: nat
  /** The bytes of the input stream not yet read. */
  var stream: seq<Byte>
  var samplesRemaining: int

  // ----- Little-endian fields -----

  static function ReadByte(s: seq<Byte>, p: nat): (b: Byte)
    ensures p < |s| ==> b == s[p]
    ensures p >= |s| ==> b == 0xFF
  {
    if p < |s| then s[p] else 0xFF
  }

  /** The unsigned 16-bit little-endian value at `p`. */
  static function ReadShortAt(s: seq<Byte>, p: nat): (v: nat)
    ensures v < 65536
  {
    ReadByte(s, p) + 256 * ReadByte(s, p + 1)
  }

  /** Two 16-bit halves, low half first, as a signed 32-bit value. */
  static function ReadIntAt(s: seq<Byte>, p: nat): (v: int)
    ensures -0x8000_0000 <= v < 0x8000_0000
  {
    ToInt32(ReadShortAt(s, p) + 65536 * ReadShortAt(s, p + 2))
  }

  /** The bytes from `p` on spell `t`: the original compares the characters it reads with a tag. */
  static predicate TagAt(s: seq<Byte>, p: nat, t: seq<Byte>)
  {
    forall i :: 0 <= i < |t| ==> ReadByte(s, p + i) == t[i]
  }

  /** `writeShort`: the low byte, then the next byte. */
  static function ShortBytes(v: int): (b: seq<Byte>)
    ensures |b| == 2
  {
    [ByteOf(v), ByteOf(v / 256)]
  }

  /** `writeInt`: the low 16 bits, then the next 16, each little-endian. */
  static function IntBytes(v: int): (b: seq<Byte>)
    ensures |b| == 4
  {
    ShortBytes(v) + ShortBytes(v / 65536)
  }

  /** The chunk tags, as their ASCII bytes. */
  static function Riff(): seq<Byte> { [0x52, 0x49, 0x46, 0x46] }  // "RIFF"
  static function Wave(): seq<Byte> { [0x57, 0x41, 0x56, 0x45] }  // "WAVE"
  static function Fmt(): seq<Byte> { [0x66, 0x6D, 0x74, 0x20] }   // "fmt "
  static function Data(): seq<Byte> { [0x64, 0x61, 0x74, 0x61] }  // "data"

  /** KSDATAFORMAT_SUBTYPE_PCM, the sub-format of an extensible PCM stream. */
  static function PcmGuid(): seq<Byte>
  {
    [0x01, 0x00, 0x00, 0x00, 0x00, 0x00, 0x10, 0x00, 0x80, 0x00, 0x00, 0xAA, 0x00, 0x38, 0x9B, 0x71]
  }

  /** The cursor after `skip(n)`: a negative count skips nothing. */
  static function Skip(p: nat, n: int): (q: nat)
    ensures q >= p && (n >= 0 ==> q == p + n)
  {
    if n > 0 then p + n else p
  }

  // ----- Header parsing -----

  /**
   * From the chunk header at `p` on, the position of the length field of the
   * first "data" chunk; other chunks are skipped by their declared size.
   */
  static function FindData(s: seq<Byte>, p: nat): (r: Result<nat, WavError>)
    ensures r.Success? ==> p + 4 <= r.value < |s| + 4 && TagAt(s, r.value - 4, Data())
    ensures r.Failure? ==> r.error == NoDataChunk
    decreases |s| - p
  {
    if p >= |s| then Failure(NoDataChunk)
    else if TagAt(s, p, Data()) then Success(p + 4)
    else FindData(s, Skip(p + 8, ReadIntAt(s, p + 4)))
  }

  /** The header layout the reader accepts, and the fields it extracts. */
  static function ParseWav(s: seq<Byte>): (r: Result<WavFormat, WavError>)
  {
    if !TagAt(s, 0, Riff()) then Failure(NoRiff)
    else if !TagAt(s, 8, Wave()) then Failure(NoWave)
    else if !TagAt(s, 12, Fmt()) then Failure(NoFmt)
    else if !Accepted(s) then Failure(UnsupportedFormat)
    else match FindData(s, ParseNext(s))
      case Failure(e) => Failure(e)
      case Success(lengthAt) =>
        var bytesPerSample := ReadShortAt(s, 32);
        if bytesPerSample == 0 then Failure(ZeroBlockAlign)
        else Success(WavFormat(ReadShortAt(s, 22), ReadIntAt(s, 24), bytesPerSample, lengthAt + 4,
                               TDiv(ReadIntAt(s, lengthAt), bytesPerSample)))
  }

  /** Parsing fails unless the first three tags are "RIFF", "WAVE" and "fmt ", in that order. */
  static lemma ParseWavTags(s: seq<Byte>)
    ensures !TagAt(s, 0, Riff()) ==> ParseWav(s) == Failure(NoRiff)
    ensures TagAt(s, 0, Riff()) && !TagAt(s, 8, Wave()) ==> ParseWav(s) == Failure(NoWave)
    ensures TagAt(s, 0, Riff()) && TagAt(s, 8, Wave()) && !TagAt(s, 12, Fmt())
            ==> ParseWav(s) == Failure(NoFmt)
  {
  }

  /**
   * Parsing fails for more than 24 bits per sample, for a format tag other than
   * PCM (1) or extensible (0xFFFE), and for an extensible format whose
   * sub-format is not PCM.
   */
  static lemma ParseWavFormat(s: seq<Byte>)
    ensures ReadShortAt(s, 34) > 24 ==> ParseWav(s).Failure?
    ensures ReadShortAt(s, 20) != 1 && ReadShortAt(s, 20) != 0xFFFE ==> ParseWav(s).Failure?
    ensures ReadShortAt(s, 20) == 0xFFFE && !TagAt(s, 44, PcmGuid()) ==> ParseWav(s).Failure?
  {
  }

  /**
   * A parsed header has a non-zero block size, takes the channel count, rate and
   * block size from the format chunk, starts the samples after a "data" tag and
   * its length, and counts the frames as that length divided by the block size.
   */
  static lemma ParseWavFields(s: seq<Byte>)
    ensures ParseWav(s).Success? ==>
              var f := ParseWav(s).value;
              && f.bytesPerSample > 0 && f.numChannels == ReadShortAt(s, 22)
              && f.bytesPerSample == ReadShortAt(s, 32) && f.sampleRate == ReadIntAt(s, 24)
              && f.dataStart >= 8 && TagAt(s, f.dataStart - 8, Data())
              && f.samplesRemaining == TDiv(ReadIntAt(s, f.dataStart - 4), f.bytesPerSample)
  {
  }

  /** What a header that passes every check parses to. */
  static lemma ParseWavSuccess(s: seq<Byte>, lengthAt: nat)
    requires TagAt(s, 0, Riff()) && TagAt(s, 8, Wave()) && TagAt(s, 12, Fmt()) && Accepted(s)
    requires FindData(s, ParseNext(s)) == Success(lengthAt) && ReadShortAt(s, 32) != 0
    ensures ParseWav(s) == Success(WavFormat(ReadShortAt(s, 22), ReadIntAt(s, 24), ReadShortAt(s, 32),
                                             lengthAt + 4, TDiv(ReadIntAt(s, lengthAt), ReadShortAt(s, 32))))
  {
  }

  /** The reader's fields are those of a parsed header, with the cursor at the first sample. */
  ghost predicate Opened(s: seq<Byte>, f: WavFormat)
    reads this
  {
    stream == Unread(s, f.dataStart) && numChannels == f.numChannels && sampleRate == f.sampleRate
    && bytesPerSample == f.bytesPerSample && samplesRemaining == f.samplesRemaining
  }

  /**
   * The parsing constructor: reads the header, then opens the reader on the
   * samples that follow it.
   */
  static method Open(s: seq<Byte>) returns (r: Result<WavSampleData, WavError>)
    ensures ParseWav(s).Failure? ==> r.Failure? && r.error == ParseWav(s).error
    ensures ParseWav(s).Success? ==> r.Success? && fresh(r.value) && r.value.Opened(s, ParseWav(s).value) && r.value.Valid()
  {
    var header := ReadHeader(s);
    if header.Failure? {
      return Failure(header.error);
    }
    var f := header.value;
    var w := new WavSampleData.Init(s, f.numChannels, f.sampleRate, f.bytesPerSample, f.dataStart, f.samplesRemaining);
    return Success(w);
  }

  /**
   * The header as the constructor reads it: checks the three tags in order,
   * reads the format chunk, skips chunks up to "data" and divides the data
   * length by the block size.
   */
  static method ReadHeader(s: seq<Byte>) returns (r: Result<WavFormat, WavError>)
    ensures r == ParseWav(s)
  {
    var p: nat := 0;
    if !TagAt(s, p, Riff()) {
      return Failure(NoRiff);
    }
    p := p + 4;
    var chunkSize := ReadIntAt(s, p);
    p := p + 4;
    if !TagAt(s, p, Wave()) {
      return Failure(NoWave);
    }
    p := p + 4;
    if !TagAt(s, p, Fmt()) {
      return Failure(NoFmt);
    }
    var accepted, nc, rate, bps;
    accepted, nc, rate, bps, p := ReadFormatChunk(s);
    if !accepted {
      return Failure(UnsupportedFormat);
    }
    var found := ScanChunks(s, p);
    if found.Failure? {
      return Failure(found.error);
    }
    p := found.value - 4;
    var dataLength := ReadIntAt(s, p + 4);
    if bps == 0 {
      return Failure(ZeroBlockAlign);
    }
    ParseWavSuccess(s, found.value);
    return Success(WavFormat(nc, rate, bps, p + 8, TDiv(dataLength, bps)));
  }

  /**
   * Reads the format chunk, whose size field follows the three tags: the format tag (forced
   * to unsupported beyond 24 bits per sample, and resolved through the
   * sub-format of the extensible format), the channel count, the rate and the
   * block size, and skips to the end of the chunk.
   */
  static method ReadFormatChunk(s: seq<Byte>) returns (accepted: bool, nc: nat, rate: int, bps: nat, next: nat)
    ensures accepted == Accepted(s) && nc == ReadShortAt(s, 22) && rate == ReadIntAt(s, 24)
    ensures bps == ReadShortAt(s, 32) && next == ParseNext(s)
  {
    var p := 16;
    var chunkSize := ReadIntAt(s, p);
    var format := ReadShortAt(s, p + 4);
    nc := ReadShortAt(s, p + 6);
    rate := ReadIntAt(s, p + 8);
    bps := ReadShortAt(s, p + 16);
    var bitsPerSample := ReadShortAt(s, p + 18);
    p := p + 20;
    if bitsPerSample > 24 {
      format := 0;
    }
    if format == 0xFFFE {
      var isPcm := TagAt(s, p + 8, PcmGuid());
      p := p + 24;
      format := if isPcm then 1 else 0;
      next := Skip(p, chunkSize - 40);
    } else {
      next := Skip(p, chunkSize - 16);
    }
    accepted := format == 1;
  }

  /** The chunk loop: skips chunks by their declared size until a "data" tag or the end. */
  static method ScanChunks(s: seq<Byte>, start: nat) returns (r: Result<nat, WavError>)
    ensures r == FindData(s, start)
  {
    var p := start;
    while !TagAt(s, p, Data())
      invariant FindData(s, p) == FindData(s, start)
      decreases |s| - p
    {
      if p >= |s| {
        return Failure(NoDataChunk);
      }
      var chunkSize := ReadIntAt(s, p + 4);
      p := Skip(p + 8, chunkSize);
    }
    if p >= |s| {
      return Failure(NoDataChunk);
    }
    return Success(p + 4);
  }

  /** The format tag, forced to 0 (unsupported) beyond 24 bits per sample. */
  static function FormatTag(s: seq<Byte>): int
  {
    if ReadShortAt(s, 34) > 24 then 0 else ReadShortAt(s, 20)
  }

  /** Plain PCM, or the extensible format with the PCM sub-format identifier. */
  static predicate Accepted(s: seq<Byte>)
  {
    FormatTag(s) == 1 || (FormatTag(s) == 0xFFFE && TagAt(s, 44, PcmGuid()))
  }

  /** Where the chunk scan starts: just after the format chunk. */
  static function ParseNext(s: seq<Byte>): nat
  {
    var chunkSize := ReadIntAt(s, 16);
    if FormatTag(s) == 0xFFFE then Skip(60, chunkSize - 40) else Skip(36, chunkSize - 16)
  }

  constructor Init(s: seq<Byte>, nc: nat, rate: int, bps: nat, start: nat, remaining: int)
    ensures stream == Unread(s, start) && numChannels == nc && sampleRate == rate && bytesPerSample == bps
    ensures samplesRemaining == remaining
  {
    stream := Unread(s, start);
    numChannels := nc;
    sampleRate := rate;
    bytesPerSample := bps;
    samplesRemaining := remaining;
  }

  // ----- Sample conversion -----

  ghost predicate Valid()
    reads this
  {
    bytesPerSample > 0
  }

  /** Bytes per channel of one frame, which selects the conversion. */
  function Width(): nat
    requires numChannels > 0
  {
    bytesPerSample / numChannels
  }

  /** The bytes taken by `k` samples of `width` bytes each, for the supported widths. */
  static function Span(k: nat, width: nat): (b: nat)
    ensures 1 <= width <= 3 ==> b == k * width
  {
    if width == 1 then k else if width == 2 then 2 * k else 3 * k
  }

  /**
   * Sample `k` of a block of `width`-byte samples: 8-bit samples are unsigned
   * and centred on 128; 16-bit ones are little-endian; 24-bit ones drop their
   * low byte. None of the three wraps in the (short) cast.
   */
  static function SampleAt(bytes: seq<Byte>, width: nat, k: nat): (v: Short)
    requires 1 <= width <= 3 && Span(k, width) + width <= |bytes|
    ensures width == 1 ==> v == (bytes[k] as int - 128) * 256
    ensures width == 2 ==> v == Signed(bytes[2 * k + 1]) * 256 + bytes[2 * k]
    ensures width == 3 ==> v == Signed(bytes[3 * k + 2]) * 256 + bytes[3 * k + 1]
  {
    if width == 1 then ToShort((bytes[k] as int - 128) * 256)
    else if width == 2 then ToShort(Signed(bytes[2 * k + 1]) * 256 + bytes[2 * k])
    else ToShort(Signed(bytes[3 * k + 2]) * 256 + bytes[3 * k + 1])
  }

  /** The first `m` samples of a block. */
  static function Convert(bytes: seq<Byte>, width: nat, m: nat): (out: seq<Short>)
    requires 1 <= width <= 3 && Span(m, width) <= |bytes|
    ensures |out| == m
    ensures forall k :: 0 <= k < m ==> Span(k, width) + width <= |bytes| && out[k] == SampleAt(bytes, width, k)
  {
    seq(m, k requires 0 <= k < m => SampleAt(bytes, width, k))
  }

  /** Converting a block looks only at its first `Span(m, width)` bytes. */
  static lemma ConvertPrefix(a: seq<Byte>, b: seq<Byte>, width: nat, m: nat)
    requires 1 <= width <= 3 && Span(m, width) <= |a| && Span(m, width) <= |b|
    requires a[..Span(m, width)] == b[..Span(m, width)]
    ensures Convert(a, width, m) == Convert(b, width, m)
  {
    forall i | 0 <= i < Span(m, width)
      ensures a[i] == b[i]
    {
      assert a[..Span(m, width)][i] == b[..Span(m, width)][i];
    }
  }

  static lemma SampleAtShift(bytes: seq<Byte>, width: nat, j: nat, k: nat)
    requires 1 <= width <= 3 && j <= k && Span(k, width) + width <= |bytes|
    ensures Span(k - j, width) + width <= |bytes[Span(j, width)..]|
    ensures SampleAt(bytes[Span(j, width)..], width, k - j) == SampleAt(bytes, width, k)
  {
    var rest := bytes[Span(j, width)..];
    if width == 1 {
      assert rest[k - j] == bytes[k];
    } else if width == 2 {
      assert rest[2 * (k - j)] == bytes[2 * k] && rest[2 * (k - j) + 1] == bytes[2 * k + 1];
    } else {
      assert rest[3 * (k - j) + 1] == bytes[3 * k + 1] && rest[3 * (k - j) + 2] == bytes[3 * k + 2];
    }
  }

  /** Converting `m` samples is converting the first `j` and then the rest. */
  static lemma ConvertSplit(bytes: seq<Byte>, width: nat, m: nat, j: nat)
    requires 1 <= width <= 3 && Span(m, width) <= |bytes| && j <= m
    ensures Span(j, width) <= Span(m, width)
    ensures Convert(bytes, width, m)[..j] == Convert(bytes, width, j)
    ensures Convert(bytes, width, m)[j..] == Convert(bytes[Span(j, width)..], width, m - j)
  {
    var rest := bytes[Span(j, width)..];
    forall k | j <= k < m
      ensures Convert(bytes, width, m)[k] == Convert(rest, width, m - j)[k - j]
    {
      SampleAtShift(bytes, width, j, k);
    }
  }

  /** The stream is aligned, uses a supported width and holds every declared frame. */
  ghost predicate Complete()
    reads this
  {
    numChannels > 0 && 1 <= Width() <= 3 && bytesPerSample == numChannels * Width()
    && samplesRemaining >= 0 && samplesRemaining * bytesPerSample <= |stream|
  }

  /** The frames still to be delivered by a complete stream. */
  ghost function Pending(): (p: seq<Short>)
    requires Complete()
    reads this
    ensures |p| == samplesRemaining * numChannels
  {
    SpanOfFrames(samplesRemaining, numChannels, Width());
    Convert(stream, Width(), samplesRemaining * numChannels)
  }

  /**
   * Reads the bytes of up to `count` frames (no more than remain, nor than
   * 65536), converts the whole frames read and places them at frame `offset`.
   * A width other than 1, 2 or 3 bytes leaves the buffer unchanged.
   */
  method GetSamples(outputBuf: array<Short>, offset: nat, count: nat) returns (n: nat)
    requires Valid() && numChannels > 0
    requires (offset + Max(0, Wanted(count, samplesRemaining))) * numChannels <= outputBuf.Length
    modifies this, outputBuf
    ensures Valid() && n <= count && n <= BUF_SAMPLES && (n == 0 || n <= old(samplesRemaining))
    ensures samplesRemaining == old(samplesRemaining) - n
    ensures stream == old(stream)[ReadFully(|old(stream)|, Wanted(count, old(samplesRemaining)) * bytesPerSample)..]
    ensures WholeFrames(n, ReadFully(|old(stream)|, Wanted(count, old(samplesRemaining)) * bytesPerSample), bytesPerSample)
    ensures offset * numChannels + n * numChannels <= outputBuf.Length
    ensures 1 <= Width() <= 3 ==> Span(n * numChannels, Width()) <= |old(stream)|
    ensures 1 <= Width() <= 3 ==>
      outputBuf[..] == Splice(old(outputBuf[..]), offset * numChannels, Convert(old(stream), Width(), n * numChannels))
    ensures !(1 <= Width() <= 3) ==> outputBuf[..] == old(outputBuf[..])
    ensures old(Complete()) ==> Complete() && n == Min(count, Min(old(samplesRemaining), BUF_SAMPLES))
    ensures old(Complete()) ==> n * numChannels <= |old(Pending())|
    ensures old(Complete()) ==>
      outputBuf[..] == Splice(old(outputBuf[..]), offset * numChannels, old(Pending())[..n * numChannels])
    ensures old(Complete()) ==> Pending() == old(Pending())[n * numChannels..]
    ensures old(Complete()) ==> Progress(n, count, old(samplesRemaining))
  {
    ghost var rest := stream;
    ghost var room := Max(0, Wanted(count, samplesRemaining));
    var chunk;
    n, chunk := ReadFrames(count);
    var nc := numChannels;
    var width := bytesPerSample / nc;
    MulAdd(offset, n, nc);
    MulMono(offset + n, offset + room, nc);
    ConvertInto(outputBuf, offset * nc, chunk, width, n * nc);
    if 1 <= width <= 3 {
      ConvertPrefix(chunk, rest, width, n * nc);
    }
  }

  /**
   * The reading half of a pull: clamps the request to the frames remaining and
   * to the buffer, reads those bytes, and counts the whole frames read.
   */
  method ReadFrames(count: nat) returns (n: nat, chunk: seq<Byte>)
    requires Valid() && numChannels > 0
    modifies this
    ensures Valid() && n <= count && n <= BUF_SAMPLES && (n == 0 || n <= old(samplesRemaining))
    ensures |chunk| == ReadFully(|old(stream)|, Wanted(count, old(samplesRemaining)) * bytesPerSample)
    ensures chunk == old(stream)[..|chunk|] && stream == old(stream)[|chunk|..]
    ensures WholeFrames(n, |chunk|, bytesPerSample)
    ensures samplesRemaining == old(samplesRemaining) - n
    ensures 1 <= Width() <= 3 ==> Span(n * numChannels, Width()) <= |chunk|
    ensures old(Complete()) ==> Complete() && n == Min(count, Min(old(samplesRemaining), BUF_SAMPLES))
    ensures old(Complete()) ==> n * numChannels <= |old(Pending())|
    ensures old(Complete()) ==> Convert(chunk, Width(), n * numChannels) == old(Pending())[..n * numChannels]
    ensures old(Complete()) ==> Pending() == old(Pending())[n * numChannels..]
  {
    ghost var wasComplete := Complete();
    ghost var p0 := if wasComplete then Pending() else [];
    var rest := stream;
    var rem := samplesRemaining;
    var bps := bytesPerSample;
    var nc := numChannels;
    var want, got;
    want, got, n := PullCounts(|rest|, rem, count, bps);
    var width := bps / nc;
    WidthBound(n, bps, nc, got);
    chunk := rest[..got];
    samplesRemaining := rem - n;
    stream := rest[got..];
    if wasComplete {
      PullFacts(rest, bps, nc, width, rem, want, got, n);
      assert samplesRemaining == rem - n && bytesPerSample == bps && |stream| == |rest| - got;
      assert Complete();
    }
  }

  /**
   * What a pull of `want` frames from the `rem` pending ones of a complete
   * stream reads: every byte of those frames, whose samples are the first
   * pending ones, while the samples after them stay pending.
   */
  static lemma PullFacts(rest: seq<Byte>, bps: nat, nc: nat, w: nat, rem: nat, want: int, got: nat, n: nat)
    requires nc > 0 && 1 <= w <= 3 && bps == nc * w && want <= rem && rem * bps <= |rest|
    requires got == ReadFully(|rest|, want * bps) && WholeFrames(n, got, bps)
    ensures n == (if want > 0 then want else 0) && n <= rem && got == n * bps
    ensures (rem - n) * bps <= |rest| - got && Span(rem * nc, w) <= |rest|
    ensures n * nc <= rem * nc && got == Span(n * nc, w) && (rem - n) * nc == rem * nc - n * nc
    ensures Convert(rest[..got], w, n * nc) == Convert(rest, w, rem * nc)[..n * nc]
    ensures Convert(rest[got..], w, (rem - n) * nc) == Convert(rest, w, rem * nc)[n * nc..]
  {
    PullCount(|rest|, rem, bps, want, got, n);
    PullComplete(rest, w, nc, rem, n, rem * nc, n * nc);
    ConvertPrefix(rest[..got], rest, w, n * nc);
  }

  /**
   * The `k` samples of the `n` frames pulled from the `m` samples of the `rem`
   * pending frames are the first of them, and the rest stay pending.
   */
  static lemma PullComplete(rest: seq<Byte>, w: nat, nc: nat, rem: nat, n: nat, m: nat, k: nat)
    requires nc > 0 && 1 <= w <= 3 && n <= rem && rem * (nc * w) <= |rest|
    requires m == rem * nc && k == n * nc
    ensures k <= m && Span(k, w) == n * (nc * w) && Span(m, w) <= |rest| && (rem - n) * nc == m - k
    ensures (rem - n) * (nc * w) <= |rest| - Span(k, w)
    ensures Convert(rest, w, k) == Convert(rest, w, m)[..k]
    ensures Convert(rest[Span(k, w)..], w, m - k) == Convert(rest, w, m)[k..]
  {
    SpanOfFrames(rem, nc, w);
    SpanOfFrames(n, nc, w);
    MulMono(n, rem, nc);
    MulSub(rem, n, nc);
    MulSub(rem, n, nc * w);
    ConvertSplit(rest, w, m, k);
  }

  /** The conversion loops: `total` samples of `width` bytes each, placed from index `dst` on. */
  static method ConvertInto(outputBuf: array<Short>, dst: nat, chunk: seq<Byte>, width: nat, total: nat)
    requires dst + total <= outputBuf.Length && (1 <= width <= 3 ==> Span(total, width) <= |chunk|)
    modifies outputBuf
    ensures 1 <= width <= 3 ==> outputBuf[..] == Splice(old(outputBuf[..]), dst, Convert(chunk, width, total))
    ensures !(1 <= width <= 3) ==> outputBuf[..] == old(outputBuf[..])
  {
    var outputIdx := dst;
    var outputEnd := dst + total;
    var inputIdx := 0;
    if width == 1 {
      while outputIdx < outputEnd
        invariant dst <= outputIdx <= outputEnd && inputIdx == outputIdx - dst
        invariant forall j :: dst <= j < outputIdx ==> outputBuf[j] == SampleAt(chunk, 1, j - dst)
        invariant forall j :: 0 <= j < outputBuf.Length && !(dst <= j < outputIdx) ==> outputBuf[j] == old(outputBuf[j])
      {
        outputBuf[outputIdx] := ToShort((chunk[inputIdx] as int - 128) * 256);
        outputIdx := outputIdx + 1;
        inputIdx := inputIdx + 1;
      }
    } else if width == 2 {
      while outputIdx < outputEnd
        invariant dst <= outputIdx <= outputEnd && inputIdx == 2 * (outputIdx - dst)
        invariant forall j :: dst <= j < outputIdx ==> outputBuf[j] == SampleAt(chunk, 2, j - dst)
        invariant forall j :: 0 <= j < outputBuf.Length && !(dst <= j < outputIdx) ==> outputBuf[j] == old(outputBuf[j])
      {
        outputBuf[outputIdx] := ToShort(Signed(chunk[inputIdx + 1]) * 256 + chunk[inputIdx]);
        outputIdx := outputIdx + 1;
        inputIdx := inputIdx + 2;
      }
    } else if width == 3 {
      while outputIdx < outputEnd
        invariant dst <= outputIdx <= outputEnd && inputIdx == 3 * (outputIdx - dst)
        invariant forall j :: dst <= j < outputIdx ==> outputBuf[j] == SampleAt(chunk, 3, j - dst)
        invariant forall j :: 0 <= j < outputBuf.Length && !(dst <= j < outputIdx) ==> outputBuf[j] == old(outputBuf[j])
      {
        outputBuf[outputIdx] := ToShort(Signed(chunk[inputIdx + 2]) * 256 + chunk[inputIdx + 1]);
        outputIdx := outputIdx + 1;
        inputIdx := inputIdx + 3;
      }
    }
    if 1 <= width <= 3 {
      SpliceFrom(outputBuf[..], old(outputBuf[..]), dst, Convert(chunk, width, total));
    }
  }

  // ----- Writing -----

  /** The bytes of 16-bit samples, each written low byte first. */
  static function SampleBytes(samples: seq<Short>): (b: seq<Byte>)
    ensures |b| == 2 * |samples|
  {
    if samples == [] then [] else SampleBytes(samples[..|samples| - 1]) + ShortBytes(samples[|samples| - 1])
  }

  /** The 44-byte header `writeWav` emits for `frames` frames of 16-bit PCM. */
  static function WavHeader(nc: int, rate: int, frames: int): (h: seq<Byte>)
    ensures |h| == 44
  {
    Riff() + IntBytes(nc * frames * 2 + 36) + Wave() + Fmt() + IntBytes(16) + ShortBytes(1)
    + ShortBytes(nc) + IntBytes(rate) + IntBytes(nc * rate * 2) + ShortBytes(nc * 2) + ShortBytes(16)
    + Data() + IntBytes(nc * frames * 2)
  }

  /**
   * Writes a 16-bit WAV file: the header, sized by the frame count remaining
   * before any frame is pulled, then every frame the source delivers.
   */
  static method WriteWav(sampleData: SampleData) returns (out: seq<Byte>)
    requires sampleData.Valid() && sampleData.Complete() && sampleData.NumChannels() > 0
    modifies sampleData.Repr()
    ensures sampleData.Valid() && sampleData.Remaining() == 0
    ensures out == WavHeader(sampleData.NumChannels(), sampleData.SampleRate(), old(sampleData.Remaining()))
                   + SampleBytes(old(sampleData.Pending()))
  {
    var numChannels := sampleData.NumChannels();
    var sampleRate := sampleData.SampleRate();
    ghost var all := sampleData.Pending();
    out := WavHeader(numChannels, sampleRate, sampleData.Remaining());
    ghost var header := out;
    var inputBuf := new Short[BUF_SAMPLES * numChannels];
    while sampleData.Remaining() > 0
      invariant sampleData.Valid() && sampleData.Complete() && sampleData.NumChannels() == numChannels
      invariant inputBuf !in sampleData.Repr() && inputBuf.Length == BUF_SAMPLES * numChannels
      invariant out + SampleBytes(sampleData.Pending()) == header + SampleBytes(all)
      decreases sampleData.Remaining()
    {
      var chunk := PullChunk(sampleData, inputBuf);
      AppendAssoc(out, chunk, SampleBytes(sampleData.Pending()));
      out := out + chunk;
    }
    MulZero(sampleData.Remaining(), numChannels);
    AppendEmpty(out, SampleBytes(sampleData.Pending()));
  }

  /** One pass of the writing loop: pulls up to a buffer of frames and encodes them. */
  static method PullChunk(sampleData: SampleData, inputBuf: array<Short>) returns (chunk: seq<Byte>)
    requires sampleData.Valid() && sampleData.Complete() && sampleData.NumChannels() > 0 && sampleData.Remaining() > 0
    requires inputBuf !in sampleData.Repr() && inputBuf.Length == BUF_SAMPLES * sampleData.NumChannels()
    modifies sampleData.Repr(), inputBuf
    ensures sampleData.Valid() && sampleData.Complete()
    ensures chunk + SampleBytes(sampleData.Pending()) == SampleBytes(old(sampleData.Pending()))
    ensures sampleData.Remaining() < old(sampleData.Remaining())
  {
    ghost var before := inputBuf[..];
    ghost var p := sampleData.Pending();
    var numChannels := sampleData.NumChannels();
    var n := sampleData.PullBuffer(inputBuf);
    var k := n * numChannels;
    chunk := EncodeSamples(inputBuf, 2 * k);
    PullStep(before, inputBuf[..], p, sampleData.Pending(), k, chunk);
  }

  /** The bytes of the pulled block followed by those of what is left are the bytes of what was pending. */
  static lemma PullStep(before: seq<Short>, after: seq<Short>, p: seq<Short>, rest: seq<Short>, k: nat, chunk: seq<Byte>)
    requires k <= |p| && k <= |before| && after == Splice(before, 0, p[..k]) && rest == p[k..]
    requires chunk == SampleBytes(after[..2 * k / 2])
    ensures chunk + SampleBytes(rest) == SampleBytes(p)
  {
    SpliceMiddle(before, 0, p[..k]);
    assert after[..k] == after[0..k];
    assert 2 * k / 2 == k;
    SampleBytesAppend(p[..k], p[k..]);
    assert p[..k] + p[k..] == p;
  }

  /** The output loop: each of the first `outputLen / 2` samples, low byte then high byte. */
  static method EncodeSamples(inputBuf: array<Short>, outputLen: nat) returns (chunk: seq<Byte>)
    requires outputLen <= 2 * inputBuf.Length && outputLen % 2 == 0
    ensures chunk == SampleBytes(inputBuf[..outputLen / 2])
  {
    chunk := [];
    var outputIdx := 0;
    while outputIdx < outputLen
      invariant 0 <= outputIdx <= outputLen && outputIdx % 2 == 0
      invariant chunk == SampleBytes(inputBuf[..outputIdx / 2])
    {
      var amp := inputBuf[outputIdx / 2];
      assert inputBuf[..outputIdx / 2 + 1][..outputIdx / 2] == inputBuf[..outputIdx / 2];
      chunk := chunk + [ByteOf(amp), ByteOf(amp / 256)];
      outputIdx := outputIdx + 2;
    }
  }

  static lemma {:induction false} SampleBytesAppend(a: seq<Short>, b: seq<Short>)
    ensures SampleBytes(a + b) == SampleBytes(a) + SampleBytes(b)
    decreases |b|
  {
    if b == [] {
      assert a + b == a;
    } else {
      var b' := b[..|b| - 1];
      assert (a + b)[..|a + b| - 1] == a + b';
      SampleBytesAppend(a, b');
    }
  }
}

/** The whole frames in `got` bytes, at `bps / nc` bytes per sample, fit in `got`. */
lemma WidthBound(n: nat, bps: nat, nc: nat, got: nat)
  requires bps > 0 && nc > 0 && WholeFrames(n, got, bps)
  ensures 1 <= bps / nc <= 3 ==> WavSampleData.Span(n * nc, bps / nc) <= n * bps <= got
{
  MulMono(nc * (bps / nc), bps, n);
  MulAssoc(n, nc, bps / nc);
}

/** `a` frames of `nc` samples of `w` bytes span `a * (nc * w)` bytes. */
lemma SpanOfFrames(a: nat, nc: nat, w: nat)
  requires 1 <= w <= 3
  ensures WavSampleData.Span(a * nc, w) == a * (nc * w)
{
  MulAssoc(a, nc, w);
}
