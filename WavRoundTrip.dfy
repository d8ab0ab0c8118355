import opened JavaInt
import opened Frames
import opened Wrappers

// The 16-bit WAV writer and the WAV reader are inverse: parsing what the
// writer emits recovers the channel count, the rate, the block size and the
// frame count, and the samples read back are the samples written.

/** `writeShort` followed by `readShort` recovers any unsigned 16-bit value. */
lemma ShortField(v: int)
  requires 0 <= v < 65536
  ensures ByteOf(v) + 256 * ByteOf(v / 256) == v
{
}

/** The two bytes `writeShort` emits for any value are its low 16 bits; the next two come from the value shifted by 16. */
lemma LowHalf(x: int)
  ensures ByteOf(x) + 256 * ByteOf(x / 256) == x % 65536
  ensures x / 256 / 256 == x / 65536
{
  var q1 := x / 256;
  var b0, b1, q2 := x % 256, q1 % 256, q1 / 256;
  assert x == 65536 * q2 + (256 * b1 + b0);
}

/** The two 16-bit halves `writeInt` emits are the value modulo 2^32, low half first. */
lemma IntHalves(v: int)
  ensures ByteOf(v) + 256 * ByteOf(v / 256) + 65536 * (ByteOf(v / 65536) + 256 * ByteOf(v / 65536 / 256))
       == v % 0x1_0000_0000
{
  var q := v / 65536;
  LowHalf(v);
  LowHalf(q);
  var lo, hi, t := v % 65536, q % 65536, q / 65536;
  assert v == 65536 * q + lo;
  assert q == 65536 * t + hi;
  assert 65536 * q == 0x1_0000_0000 * t + 65536 * hi;
  assert 0 <= lo + 65536 * hi < 0x1_0000_0000;
  assert v == 0x1_0000_0000 * t + (lo + 65536 * hi);
}

/** `writeInt` followed by `readInt` recovers any 32-bit value. */
lemma IntField(v: int)
  requires -0x8000_0000 <= v < 0x8000_0000
  ensures ToInt32(ByteOf(v) + 256 * ByteOf(v / 256) + 65536 * (ByteOf(v / 65536) + 256 * ByteOf(v / 65536 / 256))) == v
{
  IntHalves(v);
  if v < 0 {
    assert v % 0x1_0000_0000 == v + 0x1_0000_0000;
    assert (v + 0x1_0000_0000 + 0x8000_0000) % 0x1_0000_0000 == v + 0x8000_0000;
  } else {
    assert v % 0x1_0000_0000 == v;
  }
}

/** The 16-bit sample conversion reads back a sample written low byte first. */
lemma SampleField(v: Short)
  ensures ToShort(Signed(ByteOf(v / 256)) * 256 + ByteOf(v)) == v
{
  SignedOfToSignedByte(v / 256);
  assert v == (v / 256) * 256 + v % 256;
}

lemma {:induction false} SampleBytesAt(samples: seq<Short>, k: nat)
  requires k < |samples|
  ensures WavSampleData.SampleBytes(samples)[2 * k] == ByteOf(samples[k])
  ensures WavSampleData.SampleBytes(samples)[2 * k + 1] == ByteOf(samples[k] / 256)
  decreases |samples|
{
  var init := samples[..|samples| - 1];
  if k < |samples| - 1 {
    SampleBytesAt(init, k);
    assert init[k] == samples[k];
  }
}

/** The 16-bit samples the reader converts from the written data are the samples written. */
lemma ConvertSampleBytes(samples: seq<Short>)
  ensures WavSampleData.Span(|samples|, 2) <= |WavSampleData.SampleBytes(samples)|
  ensures WavSampleData.Convert(WavSampleData.SampleBytes(samples), 2, |samples|) == samples
{
  var bytes := WavSampleData.SampleBytes(samples);
  forall k | 0 <= k < |samples|
    ensures WavSampleData.Convert(bytes, 2, |samples|)[k] == samples[k]
  {
    SampleBytesAt(samples, k);
    SampleField(samples[k]);
  }
}

/** Four bytes from `p` on that spell the tag `t`. */
lemma TagOfBytes(s: seq<Byte>, p: nat, t: seq<Byte>)
  requires |t| == 4 && p + 4 <= |s|
  requires s[p] == t[0] && s[p + 1] == t[1] && s[p + 2] == t[2] && s[p + 3] == t[3]
  ensures WavSampleData.TagAt(s, p, t)
{
  forall i | 0 <= i < 4
    ensures WavSampleData.ReadByte(s, p + i) == t[i]
  {
    if i == 0 {} else if i == 1 {} else if i == 2 {} else {}
  }
}

/**
 * Where each field of the header lies: thirteen fields of 4, 4, 4, 4, 4, 2,
 * 2, 4, 4, 2, 2, 4 and 4 bytes, written one after the other.
 */
lemma HeaderLayout<X>(t0: seq<X>, n0: seq<X>, t1: seq<X>, t2: seq<X>, n1: seq<X>, s0: seq<X>, s1: seq<X>,
                      n2: seq<X>, n3: seq<X>, s2: seq<X>, s3: seq<X>, t3: seq<X>, n4: seq<X>)
  requires |t0| == |n0| == |t1| == |t2| == |n1| == |n2| == |n3| == |t3| == |n4| == 4
  requires |s0| == |s1| == |s2| == |s3| == 2
  ensures var h := t0 + n0 + t1 + t2 + n1 + s0 + s1 + n2 + n3 + s2 + s3 + t3 + n4;
          && |h| == 44 && h[0..4] == t0 && h[8..12] == t1 && h[12..16] == t2 && h[16..20] == n1
          && h[20..22] == s0 && h[22..24] == s1 && h[24..28] == n2 && h[32..34] == s2 && h[34..36] == s3
          && h[36..40] == t3 && h[40..44] == n4
{
}

/** The four chunk tags of a written header, at 0, 8, 12 and 36. */
lemma HeaderTags(nc: nat, rate: int, frames: nat, data: seq<Byte>)
  ensures var s := WavSampleData.WavHeader(nc, rate, frames) + data;
          && WavSampleData.TagAt(s, 0, WavSampleData.Riff()) && WavSampleData.TagAt(s, 8, WavSampleData.Wave())
          && WavSampleData.TagAt(s, 12, WavSampleData.Fmt()) && WavSampleData.TagAt(s, 36, WavSampleData.Data())
{
  HeaderLayout(WavSampleData.Riff(), WavSampleData.IntBytes(nc * frames * 2 + 36), WavSampleData.Wave(), WavSampleData.Fmt(),
               WavSampleData.IntBytes(16), WavSampleData.ShortBytes(1), WavSampleData.ShortBytes(nc), WavSampleData.IntBytes(rate),
               WavSampleData.IntBytes(nc * rate * 2), WavSampleData.ShortBytes(nc * 2), WavSampleData.ShortBytes(16),
               WavSampleData.Data(), WavSampleData.IntBytes(nc * frames * 2));
  HeaderTag(nc, rate, frames, data, 0, WavSampleData.Riff());
  HeaderTag(nc, rate, frames, data, 8, WavSampleData.Wave());
  HeaderTag(nc, rate, frames, data, 12, WavSampleData.Fmt());
  HeaderTag(nc, rate, frames, data, 36, WavSampleData.Data());
}

/** A tag of a written header, one at a time. */
lemma HeaderTag(nc: nat, rate: int, frames: nat, data: seq<Byte>, p: nat, t: seq<Byte>)
  requires p + 4 <= 44 && t == WavSampleData.WavHeader(nc, rate, frames)[p..p + 4]
  ensures WavSampleData.TagAt(WavSampleData.WavHeader(nc, rate, frames) + data, p, t)
{
  var s := WavSampleData.WavHeader(nc, rate, frames) + data;
  TagOfBytes(s, p, t);
}

/** The 16-bit fields of a written header: format 1, the channel count, the block size and 16 bits per sample. */
lemma HeaderShorts(nc: nat, rate: int, frames: nat, data: seq<Byte>)
  requires nc < 32768
  ensures var s := WavSampleData.WavHeader(nc, rate, frames) + data;
          && WavSampleData.ReadShortAt(s, 20) == 1 && WavSampleData.ReadShortAt(s, 22) == nc
          && WavSampleData.ReadShortAt(s, 32) == 2 * nc && WavSampleData.ReadShortAt(s, 34) == 16
{
  HeaderShort(nc, rate, frames, data, 20, 1);
  HeaderShort(nc, rate, frames, data, 22, nc);
  HeaderShort(nc, rate, frames, data, 32, nc * 2);
  HeaderShort(nc, rate, frames, data, 34, 16);
}

/** A 16-bit field of a written header, one at a time. */
lemma HeaderShort(nc: nat, rate: int, frames: nat, data: seq<Byte>, p: nat, v: int)
  requires p + 2 <= 44 && 0 <= v < 65536 && WavSampleData.WavHeader(nc, rate, frames)[p..p + 2] == WavSampleData.ShortBytes(v)
  ensures WavSampleData.ReadShortAt(WavSampleData.WavHeader(nc, rate, frames) + data, p) == v
{
  var h := WavSampleData.WavHeader(nc, rate, frames);
  assert h[p] == h[p..p + 2][0] && h[p + 1] == h[p..p + 2][1];
  ShortField(v);
}

/** The 32-bit fields of a written header that the reader uses: the format size, the rate and the data length. */
lemma HeaderInts(nc: nat, rate: int, frames: nat, data: seq<Byte>)
  requires -0x8000_0000 <= rate < 0x8000_0000 && nc * frames * 2 < 0x8000_0000
  ensures var s := WavSampleData.WavHeader(nc, rate, frames) + data;
          && WavSampleData.ReadIntAt(s, 16) == 16 && WavSampleData.ReadIntAt(s, 24) == rate
          && WavSampleData.ReadIntAt(s, 40) == nc * frames * 2
{
  HeaderLayout(WavSampleData.Riff(), WavSampleData.IntBytes(nc * frames * 2 + 36), WavSampleData.Wave(), WavSampleData.Fmt(),
               WavSampleData.IntBytes(16), WavSampleData.ShortBytes(1), WavSampleData.ShortBytes(nc), WavSampleData.IntBytes(rate),
               WavSampleData.IntBytes(nc * rate * 2), WavSampleData.ShortBytes(nc * 2), WavSampleData.ShortBytes(16),
               WavSampleData.Data(), WavSampleData.IntBytes(nc * frames * 2));
  MulMono(0, nc, frames);
  MulMono(0, nc * frames, 2);
  HeaderInt(nc, rate, frames, data, 16, 16);
  HeaderInt(nc, rate, frames, data, 24, rate);
  HeaderInt(nc, rate, frames, data, 40, nc * frames * 2);
}

/** A 32-bit field of a written header, one at a time. */
lemma HeaderInt(nc: nat, rate: int, frames: nat, data: seq<Byte>, p: nat, v: int)
  requires p + 4 <= 44 && -0x8000_0000 <= v < 0x8000_0000
  requires WavSampleData.WavHeader(nc, rate, frames)[p..p + 4] == WavSampleData.IntBytes(v)
  ensures WavSampleData.ReadIntAt(WavSampleData.WavHeader(nc, rate, frames) + data, p) == v
{
  var h := WavSampleData.WavHeader(nc, rate, frames);
  var f := h[p..p + 4];
  assert h[p] == f[0] && h[p + 1] == f[1] && h[p + 2] == f[2] && h[p + 3] == f[3];
  IntField(v);
}

/**
 * Parsing a header `writeWav` emitted, whatever data follows it: the channel
 * count and the rate fit their fields and the data length fits in 32 bits.
 */
lemma ParseWavHeader(nc: nat, rate: int, frames: nat, data: seq<Byte>)
  requires 0 < nc < 32768 && -0x8000_0000 <= rate < 0x8000_0000 && nc * frames * 2 < 0x8000_0000
  ensures WavSampleData.ParseWav(WavSampleData.WavHeader(nc, rate, frames) + data)
          == Success(WavFormat(nc, rate, 2 * nc, 44, frames))
{
  var s := WavSampleData.WavHeader(nc, rate, frames) + data;
  HeaderTags(nc, rate, frames, data);
  HeaderShorts(nc, rate, frames, data);
  HeaderInts(nc, rate, frames, data);
  assert WavSampleData.ParseNext(s) == 36;
  assert WavSampleData.FindData(s, 36) == Success(40);
  MulMono(0, nc, frames);
  MulMono(0, nc * frames, 2);
  MulAssoc(frames, nc, 2);
  MulDiv(frames, nc * 2);
  assert TDiv(nc * frames * 2, 2 * nc) == frames;
  WavSampleData.ParseWavSuccess(s, 40);
}

/**
 * What the reader makes of a 16-bit WAV file the writer emitted for `frames`
 * frames of `nc` channels: the header parses to those frames at a block size
 * of two bytes per channel, and the samples after it convert back to the
 * samples written.
 */
lemma WrittenWavReads(nc: nat, rate: int, frames: nat, samples: seq<Short>)
  requires 0 < nc < 32768 && -0x8000_0000 <= rate < 0x8000_0000 && nc * frames * 2 < 0x8000_0000
  requires |samples| == frames * nc
  ensures var s := WavSampleData.WavHeader(nc, rate, frames) + WavSampleData.SampleBytes(samples);
          && WavSampleData.ParseWav(s) == Success(WavFormat(nc, rate, 2 * nc, 44, frames))
          && (2 * nc) / nc == 2 && frames * (2 * nc) <= |Unread(s, 44)|
          && WavSampleData.Span(frames * nc, 2) <= |Unread(s, 44)|
          && WavSampleData.Convert(Unread(s, 44), 2, frames * nc) == samples
{
  ParseWavHeader(nc, rate, frames, WavSampleData.SampleBytes(samples));
  WrittenData(WavSampleData.WavHeader(nc, rate, frames), nc, frames, samples);
}

/** The samples after the 44-byte header convert back to the samples written. */
lemma WrittenData(h: seq<Byte>, nc: nat, frames: nat, samples: seq<Short>)
  requires |h| == 44 && nc > 0 && |samples| == frames * nc
  ensures var s := h + WavSampleData.SampleBytes(samples);
          && (2 * nc) / nc == 2 && frames * (2 * nc) <= |Unread(s, 44)|
          && WavSampleData.Span(frames * nc, 2) <= |Unread(s, 44)|
          && WavSampleData.Convert(Unread(s, 44), 2, frames * nc) == samples
{
  var s := h + WavSampleData.SampleBytes(samples);
  assert Unread(s, 44) == WavSampleData.SampleBytes(samples);
  ConvertSampleBytes(samples);
  FrameBytes(frames, nc);
}

/** Frames of `nc` two-byte samples: the block size is two bytes per channel. */
lemma FrameBytes(frames: nat, nc: nat)
  requires nc > 0
  ensures (2 * nc) / nc == 2 && frames * (2 * nc) == 2 * (frames * nc)
{
  MulDiv(2, nc);
  MulAssoc(frames, nc, 2);
}

/**
 * The writer followed by the reader, as the round-trip test does it: `frames`
 * frames of `nc` channels in an array, written as a WAV file, parsed, and
 * drained into a new array, which holds the samples written.
 */
method WavRoundTrip(samples: seq<Short>, nc: nat, rate: int, frames: nat) returns (out: seq<Short>)
  requires 0 < nc < 32768 && -0x8000_0000 <= rate < 0x8000_0000 && nc * frames * 2 < 0x8000_0000
  requires |samples| == frames * nc
  ensures out == samples
{
  var bytes := WriteArray(samples, nc, rate, frames);
  WrittenWavReads(nc, rate, frames, samples);
  var parsed := WavSampleData.Open(bytes);
  var wav := parsed.value;
  out := DrainWav(wav);
}

/** Writes `frames` frames of `nc` channels, held in a new array, as a 16-bit WAV file. */
method WriteArray(samples: seq<Short>, nc: nat, rate: int, frames: nat) returns (bytes: seq<Byte>)
  requires nc > 0 && |samples| == frames * nc
  ensures bytes == WavSampleData.WavHeader(nc, rate, frames) + WavSampleData.SampleBytes(samples)
{
  var buf := new Short[|samples|](i requires 0 <= i < |samples| => samples[i]);
  assert buf[..] == samples;
  var source := new ArraySampleData(buf, nc, rate, frames);
  assert source.Valid() && source.inputOffset * nc == 0;
  assert source.Pending() == buf[0..|samples|] == samples;
  var sd := ArrayData(source);
  assert sd.Valid() && sd.Complete() && sd.Pending() == samples && sd.Remaining() == frames;
  bytes := WavSampleData.WriteWav(sd);
}

/** Drains a complete WAV reader into a new array and returns its contents: the reader's pending frames. */
method DrainWav(wav: WavSampleData) returns (out: seq<Short>)
  requires wav.Valid() && wav.Complete()
  modifies wav
  ensures out == old(wav.Pending())
{
  var drained := new ArraySampleData.Drain(WavData(wav));
  out := drained.inputBuf[..];
}
