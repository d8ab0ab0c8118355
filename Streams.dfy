import opened JavaInt
import opened Frames

/** The most frames any stream reader decodes in one pull. */
const BUF_SAMPLES: nat := 65536

/** The frames a pull of `count` asks for: no more than remain, nor than `BUF_SAMPLES`. */
function Wanted(count: int, remaining: int): (w: int)
  ensures w <= count && w <= remaining && w <= BUF_SAMPLES
  ensures w == count || w == remaining || w == BUF_SAMPLES
{
  Min(Min(count, remaining), BUF_SAMPLES)
}

/**
 * The progress a pull of `count` frames from a complete stream with `rem`
 * frames remaining makes: it delivers at least one frame when asked for two
 * or more, or for all that remain, and a whole buffer's worth (all that
 * remain, up to 65536) when asked for 65536.
 */
predicate Progress(n: int, count: int, rem: int)
{
  && (count >= 2 && rem > 0 ==> n > 0)
  && (0 < rem <= count ==> n > 0)
  && (count == BUF_SAMPLES ==> n == Min(count, rem))
}

/** The bytes of `s` after the first `p`: what an input stream holds once `p` bytes are read. */
function Unread<X>(s: seq<X>, p: nat): (r: seq<X>)
  ensures |r| == if p <= |s| then |s| - p else 0
  ensures forall i :: 0 <= i < |r| ==> r[i] == s[p + i]
{
  if p <= |s| then s[p..] else []
}

/**
 * `readFully`, which every stream reader has a private copy of: it asks the
 * input for `wanted` bytes until it has them or the input is exhausted, so it
 * yields as many bytes as were asked for, or as the input still holds.
 */
function ReadFully(available: nat, wanted: int): (got: nat)
  ensures wanted <= 0 ==> got == 0
  ensures wanted > 0 ==> got <= wanted && got <= available && (got == wanted || got == available)
{
  if wanted <= 0 then 0 else Min(wanted, available)
}

/** `n` is the number of whole frames of `bpf` bytes in `got` bytes, stated without a division. */
predicate WholeFrames(n: nat, got: nat, bpf: nat)
{
  n * bpf <= got < n * bpf + bpf
}

/** The whole frames in `got` bytes are `got / bpf`, and no other count. */
lemma WholeFramesDiv(n: nat, got: nat, bpf: nat)
  requires bpf > 0
  ensures WholeFrames(n, got, bpf) <==> n == got / bpf
{
  var q := got / bpf;
  DivFloor(got, bpf);
  assert got < q * bpf + bpf;
  if WholeFrames(n, got, bpf) {
    if q < n {
      MulMono(q + 1, n, bpf);
    } else if q > n {
      MulMono(n + 1, q, bpf);
    }
  }
}

/**
 * The arithmetic of a pull of frames of `bps` bytes from `avail` bytes: the
 * frames asked for, the bytes read and the whole frames among them.
 */
method PullCounts(avail: nat, rem: int, count: nat, bps: nat)
  returns (want: int, got: nat, n: nat)
  requires bps > 0
  ensures want == Wanted(count, rem) && got == ReadFully(avail, want * bps) && got <= avail
  ensures WholeFrames(n, got, bps)
  ensures n <= count && n <= BUF_SAMPLES && (n == 0 || n <= rem)
{
  want := Wanted(count, rem);
  got := ReadFully(avail, want * bps);
  n := got / bps;
  WholeFramesDiv(n, got, bps);
  if want > 0 {
    DivBound(got, want, bps);
    assert n <= want;
  } else {
    assert n == 0;
  }
}

/**
 * On a stream that holds the bytes of all `rem` frames it declares, a pull of
 * `want <= rem` frames of `bpf` bytes each reads all of their bytes.
 */
lemma PullCount(avail: nat, rem: nat, bpf: nat, want: int, got: nat, n: nat)
  requires bpf > 0 && want <= rem && rem * bpf <= avail
  requires got == ReadFully(avail, want * bpf) && WholeFrames(n, got, bpf)
  ensures n == (if want > 0 then want else 0) && got == n * bpf && n <= rem
  ensures (rem - n) * bpf <= avail - got
{
  if want > 0 {
    MulMono(want, rem, bpf);
    assert got == want * bpf;
    MulDiv(want, bpf);
    WholeFramesDiv(n, got, bpf);
    WholeFramesDiv(want, got, bpf);
  } else {
    WholeFramesDiv(n, got, bpf);
  }
  MulSub(rem, n, bpf);
}

/**
 * A pull of `want` frames of `nc` bytes from a stream holding all `rem` frames
 * it declares, decoded byte by byte with `f`: the bytes read decode to the
 * first pending samples, and the bytes after them to the rest.
 */
lemma BytePull<Y>(f: Byte -> Y, rest: seq<Byte>, nc: nat, rem: nat, want: int, got: nat, n: nat)
  requires nc > 0 && want <= rem && rem * nc <= |rest|
  requires got == ReadFully(|rest|, want * nc) && WholeFrames(n, got, nc)
  ensures n == (if want > 0 then want else 0) && got == n * nc && n <= rem
  ensures (rem - n) * nc <= |rest| - got && n * nc <= rem * nc && (rem - n) * nc == rem * nc - n * nc
  ensures Map(f, rest[..n * nc]) == Map(f, rest[..rem * nc])[..n * nc]
  ensures Map(f, rest[got..][..(rem - n) * nc]) == Map(f, rest[..rem * nc])[n * nc..]
{
  PullCount(|rest|, rem, nc, want, got, n);
  MulMono(n, rem, nc);
  MulSub(rem, n, nc);
  MapSlice(f, rest[..rem * nc], 0, n * nc);
  assert rest[..rem * nc][0..n * nc] == rest[..got];
  MapSlice(f, rest[..rem * nc], n * nc, rem * nc);
  assert rest[..rem * nc][n * nc..rem * nc] == rest[got..][..(rem - n) * nc];
}

/** `nc` copies of `x`: one initial state per channel. */
function Fill<X>(x: X, nc: nat): (r: seq<X>)
  ensures |r| == nc && forall c :: 0 <= c < nc ==> r[c] == x
{
  seq(nc, c => x)
}

/**
 * The outputs of a per-channel machine over `n` frames of `xs` when every
 * channel restarts from `init` at each pull of `BUF_SAMPLES` frames (the
 * last pull takes what is left): how the encoders that reset their state per
 * buffer see a source that always delivers every frame it is asked for.
 */
ghost function Chunked<S, T, U>(step: (S, T) -> (S, U), init: S, xs: seq<T>, nc: nat, n: nat): (r: seq<U>)
  requires n * nc <= |xs|
  ensures |r| == n * nc
  decreases n
{
  if n == 0 then []
  else
    var m := Min(n, BUF_SAMPLES);
    MulMono(m, n, nc);
    MulSub(n, m, nc);
    RunAll(step, Fill(init, nc), xs, nc, m) + Chunked(step, init, xs[m * nc..], nc, n - m)
}

/**
 * One pull of a chunked encoder: from a complete source holding `p`, the
 * buffer `buf` receives the first `m` frames, the encoder writes its outputs for
 * them at the start of `out1`, and those outputs followed by the chunked
 * encoding of the rest are the chunked encoding of `p`.
 */
lemma ChunkedPull<S, T, U>(step: (S, T) -> (S, U), init: S, p: seq<T>, rem: nat, nc: nat, m: nat,
                           before: seq<T>, buf: seq<T>, out0: seq<U>, out1: seq<U>)
  requires rem > 0 && |p| == rem * nc && m == Min(rem, BUF_SAMPLES) && m * nc <= |p|
  requires m * nc <= |before| && buf == Splice(before, 0, p[..m * nc])
  requires m * nc <= |out0| && out1 == Splice(out0, 0, RunAll(step, Fill(init, nc), buf, nc, m))
  ensures m * nc <= |out1|
  ensures out1[..m * nc] + Chunked(step, init, p[m * nc..], nc, rem - m) == Chunked(step, init, p, nc, rem)
{
  SpliceMiddle(before, 0, p[..m * nc]);
  assert buf[..m * nc] == p[..m * nc];
  RunAllOfPrefix(step, Fill(init, nc), buf, p, nc, m);
  SpliceMiddle(out0, 0, RunAll(step, Fill(init, nc), buf, nc, m));
  assert out1[..m * nc] == RunAll(step, Fill(init, nc), p, nc, m);
}

/**
 * The decoding loops of the byte-per-sample readers: channel by channel, the
 * byte of each frame decoded by `decode` into its slot from frame `offset` on.
 */
method MapInto(outputBuf: array<Short>, offset: nat, chunk: seq<Byte>, nc: nat, n: nat, decode: Byte -> Short)
  requires nc > 0 && |chunk| == n * nc && offset * nc + n * nc <= outputBuf.Length
  modifies outputBuf
  ensures outputBuf[..] == Splice(old(outputBuf[..]), offset * nc, Map(decode, chunk))
{
  ghost var start := outputBuf[..];
  ghost var block := Map(decode, chunk);
  var dst := offset * nc;
  WovenStart(start, dst, block, nc, n);
  var channel := 0;
  while channel < nc
    invariant channel <= nc && outputBuf[..] == Woven(start, dst, block, nc, n, channel, 0)
  {
    var inputIdx := channel;
    var inputEnd := n * nc + channel;
    var outputIdx := dst + channel;
    ghost var i: nat := 0;
    while inputIdx < inputEnd
      invariant i <= n && inputIdx == i * nc + channel && outputIdx == dst + inputIdx
      invariant outputBuf[..] == Woven(start, dst, block, nc, n, channel, i)
      decreases inputEnd - inputIdx
    {
      MulLess(i, n, nc);
      WovenStep(start, dst, block, nc, n, channel, i);
      outputBuf[outputIdx] := decode(chunk[inputIdx]);
      MulAdd(i, 1, nc);
      outputIdx := outputIdx + nc;
      inputIdx := inputIdx + nc;
      i := i + 1;
    }
    if i < n {
      MulMono(i + 1, n, nc);
    }
    WovenNext(start, dst, block, nc, n, channel);
    channel := channel + 1;
  }
  WovenAll(start, dst, block, nc, n);
}

/**
 * A pull of `n <= rem` frames from a stream whose `rem` declared frames are all
 * present, decoded by one machine per channel from `states`: the frames read
 * give the first outputs, and the frames after them, from the states reached,
 * give the rest.
 */
lemma RunPull<S, U>(step: (S, Byte) -> (S, U), states: seq<S>, rest: seq<Byte>, nc: nat, rem: nat, n: nat)
  requires |states| == nc && n <= rem && rem * nc <= |rest|
  ensures n * nc <= rem * nc && (rem - n) * nc <= |rest[n * nc..]|
  ensures RunAll(step, states, rest[..n * nc], nc, n) == RunAll(step, states, rest[..rem * nc], nc, rem)[..n * nc]
  ensures RunAll(step, FinalAll(step, states, rest[..n * nc], nc, n), rest[n * nc..][..(rem - n) * nc], nc, rem - n)
       == RunAll(step, states, rest[..rem * nc], nc, rem)[n * nc..]
{
  MulMono(n, rem, nc);
  MulSub(rem, n, nc);
  var xs := rest[..rem * nc];
  RunAllSplit(step, states, xs, nc, n, rem);
  assert xs[..n * nc] == rest[..n * nc][..n * nc];
  RunAllOfPrefix(step, states, xs, rest[..n * nc], nc, n);
  assert xs[n * nc..] == rest[n * nc..][..(rem - n) * nc];
}

/**
 * One pull of an encoder whose channel machines persist across pulls: the
 * buffer `buf` receives the first `m` pending frames, the machines run over
 * them from `states` and leave `after`, and the outputs written to `out1`
 * followed by the encoding of the rest from `after` are the encoding of all
 * of `p` from `states`.
 */
lemma RunChunk<S, T, U>(step: (S, T) -> (S, U), states: seq<S>, after: seq<S>, p: seq<T>, rem: nat, nc: nat, m: nat,
                        before: seq<T>, buf: seq<T>, out0: seq<U>, out1: seq<U>)
  requires |states| == nc && |p| == rem * nc && m <= rem && m * nc <= |p|
  requires m * nc <= |before| && buf == Splice(before, 0, p[..m * nc])
  requires m * nc <= |out0| && out1 == Splice(out0, 0, RunAll(step, states, buf, nc, m))
  requires after == FinalAll(step, states, buf, nc, m)
  ensures m * nc <= |out1| && (rem - m) * nc <= |p[m * nc..]|
  ensures out1[..m * nc] + RunAll(step, after, p[m * nc..], nc, rem - m) == RunAll(step, states, p, nc, rem)
{
  SpliceMiddle(before, 0, p[..m * nc]);
  assert buf[..m * nc] == p[..m * nc];
  RunAllOfPrefix(step, states, buf, p, nc, m);
  SpliceMiddle(out0, 0, RunAll(step, states, buf, nc, m));
  RunAllSplit(step, states, p, nc, m, rem);
}

/** Storing channel `c`'s final state into states finished below `c` finishes them below `c + 1`. */
lemma StoreNext<X>(held: seq<X>, fin: seq<X>, s0: seq<X>, c: nat, v: X)
  requires |fin| == |s0| && c < |s0| && held == fin[..c] + s0[c..] && v == fin[c]
  ensures held[c := v] == fin[..c + 1] + s0[c + 1..]
{
  var a, b := held[c := v], fin[..c + 1] + s0[c + 1..];
  forall j | 0 <= j < |s0|
    ensures a[j] == b[j]
  {
  }
}

/**
 * The per-channel loops of the stateful codecs: each channel in turn loads its
 * state, runs `step` over its samples of the first `n` frames of `input` in
 * order, writing each output to its slot from frame `offset` of `output`, and
 * stores the state it reached.
 */
method RunInto<S, T, U>(step: (S, T) -> (S, U), states: array<S>, input: seq<T>, output: array<U>, offset: nat, nc: nat, n: nat)
  requires states.Length == nc && n * nc <= |input| && offset * nc + n * nc <= output.Length
  requires states as object != output as object
  modifies states, output
  ensures output[..] == Splice(old(output[..]), offset * nc, RunAll(step, old(states[..]), input, nc, n))
  ensures states[..] == FinalAll(step, old(states[..]), input, nc, n)
{
  ghost var s0 := states[..];
  ghost var start := output[..];
  ghost var block := RunAll(step, s0, input, nc, n);
  ghost var fin := FinalAll(step, s0, input, nc, n);
  var dst := offset * nc;
  WovenStart(start, dst, block, nc, n);
  var channel := 0;
  while channel < nc
    invariant channel <= nc && output[..] == Woven(start, dst, block, nc, n, channel, 0)
    invariant states[..] == fin[..channel] + s0[channel..]
  {
    var state := RunChannel(step, states[channel], input, output, dst, nc, n, channel, s0, start);
    ghost var held := states[..];
    states[channel] := state;
    assert states[..] == held[channel := state];
    StoreNext(held, fin, s0, channel, state);
    channel := channel + 1;
  }
  WovenAll(start, dst, block, nc, n);
  assert fin[..nc] == fin;
}

/**
 * The inner loop of `RunInto` for one channel: from `state`, every frame of
 * the channel in order, each output to the channel's slot of its frame.
 */
method RunChannel<S, T, U>(step: (S, T) -> (S, U), state: S, input: seq<T>, output: array<U>, dst: nat, nc: nat, n: nat,
                           channel: nat, ghost s0: seq<S>, ghost start: seq<U>) returns (last: S)
  requires |s0| == nc && channel < nc && s0[channel] == state && n * nc <= |input|
  requires |start| == output.Length && dst + n * nc <= output.Length
  requires output[..] == Woven(start, dst, RunAll(step, s0, input, nc, n), nc, n, channel, 0)
  modifies output
  ensures output[..] == Woven(start, dst, RunAll(step, s0, input, nc, n), nc, n, channel + 1, 0)
  ensures last == FinalAll(step, s0, input, nc, n)[channel]
{
  ghost var block := RunAll(step, s0, input, nc, n);
  ghost var col := Column(input, nc, channel, n);
  last := state;
  var inputIdx := channel;
  var inputEnd := n * nc + channel;
  var outputIdx := dst + channel;
  ghost var i: nat := 0;
  while inputIdx < inputEnd
    invariant i <= n && inputIdx == i * nc + channel && outputIdx == dst + inputIdx
    invariant last == Final(step, state, col[..i])
    invariant output[..] == Woven(start, dst, block, nc, n, channel, i)
    decreases inputEnd - inputIdx
  {
    MulLess(i, n, nc);
    RunAllNext(step, s0, input, nc, n, i, channel);
    WovenStep(start, dst, block, nc, n, channel, i);
    var r := step(last, input[inputIdx]);
    assert r == step(Final(step, state, col[..i]), input[i * nc + channel]);
    last := r.0;
    assert last == Final(step, state, col[..i + 1]);
    output[outputIdx] := r.1;
    MulAdd(i, 1, nc);
    outputIdx := outputIdx + nc;
    inputIdx := inputIdx + nc;
    i := i + 1;
  }
  assert i == n by {
    if i < n {
      MulMono(i + 1, n, nc);
      MulAdd(i, 1, nc);
    }
  }
  FinalAllAt(step, s0, input, nc, n, channel);
  WovenNext(start, dst, block, nc, n, channel);
}
