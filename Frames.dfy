/**
 * The interleaved frame-by-channel layout every buffer of the toolkit uses
 * (channel `c` of frame `f` lives at `f * numChannels + c`), and the per-channel
 * state machines the codecs run over such buffers.
 */
module Frames {

  lemma MulMono(a: int, b: int, k: nat)
    requires a <= b
    ensures a * k <= b * k
  {
  }

  lemma MulZero(a: int, k: int)
    requires a == 0
    ensures a * k == 0
  {
  }

  lemma MulLess(a: int, b: int, k: nat)
    requires a * k < b * k
    ensures a < b
  {
    if a >= b {
      MulMono(b, a, k);
    }
  }

  lemma MulAdd(a: int, b: int, k: int)
    ensures (a + b) * k == a * k + b * k
  {
  }

  lemma MulSub(a: int, b: int, k: int)
    ensures (a - b) * k == a * k - b * k
  {
  }

  lemma MulAssoc(a: int, b: int, c: int)
    ensures a * b * c == a * (b * c)
  {
  }

  lemma DivMono(a: nat, b: nat, d: nat)
    requires a <= b && d > 0
    ensures a / d <= b / d
  {
    var qa, qb := a / d, b / d;
    assert qa * d <= a;
    assert b < qb * d + d;
    if qa > qb {
      MulMono(qb + 1, qa, d);
    }
  }

  lemma MulDiv(a: nat, b: nat)
    requires b > 0
    ensures a * b / b == a
  {
    var q := a * b / b;
    assert q * b + a * b % b == a * b;
    if q < a {
      MulMono(q + 1, a, b);
    } else if q > a {
      MulMono(a + 1, q, b);
    }
  }

  lemma DivFloor(a: nat, d: nat)
    requires d > 0
    ensures a / d * d <= a && (a == 0 ==> a / d == 0)
  {
  }

  lemma DivBound(got: nat, want: nat, d: nat)
    requires d > 0 && got <= want * d
    ensures got / d <= want
  {
    assert got / d * d <= got;
    if got / d > want {
      MulMono(want + 1, got / d, d);
    }
  }

  lemma AppendAssoc<X>(a: seq<X>, b: seq<X>, c: seq<X>)
    ensures a + b + c == a + (b + c)
  {
  }

  lemma AppendEmpty<X>(a: seq<X>, b: seq<X>)
    requires b == []
    ensures a + b == a
  {
  }

  /** The index of channel `c` of frame `f` in a buffer of `n` frames of `nc` channels. */
  function Slot(nc: nat, n: nat, f: nat, c: nat): (j: nat)
    requires f < n && c < nc
    ensures f * nc <= j < n * nc
  {
    MulMono(f + 1, n, nc);
    f * nc + c
  }

  /** Distinct (frame, channel) pairs occupy distinct slots. */
  lemma SlotDistinct(nc: nat, n: nat, f: nat, c: nat, g: nat, d: nat)
    requires f < n && c < nc && g < n && d < nc && (f != g || c != d)
    ensures Slot(nc, n, f, c) != Slot(nc, n, g, d)
  {
    if f < g {
      MulMono(f + 1, g, nc);
    } else if g < f {
      MulMono(g + 1, f, nc);
    }
  }

  /** Every index below `n * nc` is the slot of exactly one (frame, channel) pair. */
  lemma DecomposeAt(j: nat, nc: nat, n: nat)
    requires j < n * nc
    ensures nc > 0 && j / nc < n && j % nc < nc && j == Slot(nc, n, j / nc, j % nc)
  {
    assert nc > 0;
    if j / nc >= n {
      MulMono(n, j / nc, nc);
    }
  }

  /** An index below `n * nc` lies in one of the `n` frames. */
  lemma FrameOf(j: nat, nc: nat, n: nat)
    requires j < n * nc
    ensures nc > 0 && j / nc < n
  {
    DecomposeAt(j, nc, n);
  }

  lemma Decompose(j: nat, nc: nat, n: nat) returns (f: nat, d: nat)
    requires j < n * nc
    ensures nc > 0 && f < n && d < nc && j == Slot(nc, n, f, d)
    ensures f == j / nc && d == j % nc
  {
    DecomposeAt(j, nc, n);
    f, d := j / nc, j % nc;
  }

  lemma SlotDivMod(nc: nat, n: nat, f: nat, c: nat)
    requires f < n && c < nc
    ensures Slot(nc, n, f, c) / nc == f && Slot(nc, n, f, c) % nc == c
  {
    var g, d := Decompose(Slot(nc, n, f, c), nc, n);
    if g != f || d != c {
      SlotDistinct(nc, n, f, c, g, d);
    }
  }

  /** The slot of a frame does not depend on how many frames the buffer is said to hold. */
  lemma SlotShift(nc: nat, n: nat, m: nat, f: nat, c: nat)
    requires f < n && c < nc
    ensures Slot(nc, n, f, c) + m * nc == Slot(nc, n + m, f + m, c)
  {
  }

  /** Two sequences of `n` frames agree when they agree in every slot. */
  lemma EqualBySlots<X>(a: seq<X>, b: seq<X>, nc: nat, n: nat)
    requires |a| == n * nc && |b| == n * nc
    requires forall f, c :: 0 <= f < n && 0 <= c < nc ==> a[Slot(nc, n, f, c)] == b[Slot(nc, n, f, c)]
    ensures a == b
  {
    forall j | 0 <= j < |a|
      ensures a[j] == b[j]
    {
      var f, c := Decompose(j, nc, n);
    }
  }

  /** `s` with the block starting at `at` replaced by `t`. */
  function Splice<X>(s: seq<X>, at: nat, t: seq<X>): (r: seq<X>)
    requires at + |t| <= |s|
    ensures |r| == |s|
    ensures forall j :: 0 <= j < |s| ==> r[j] == if at <= j < at + |t| then t[j - at] else s[j]
  {
    s[..at] + t + s[at + |t|..]
  }

  /** A splice over one of the same length at the same place replaces it. */
  lemma SpliceOver<X>(s: seq<X>, at: nat, t: seq<X>, u: seq<X>)
    requires at + |t| <= |s| && |u| == |t|
    ensures Splice(Splice(s, at, t), at, u) == Splice(s, at, u)
  {
    var a, b := Splice(Splice(s, at, t), at, u), Splice(s, at, u);
    forall j | 0 <= j < |s|
      ensures a[j] == b[j]
    {
    }
  }

  /** A splice at the start leaves what lies past the inserted sequence as it was. */
  lemma SpliceOutside<X>(s: seq<X>, t: seq<X>, a: nat, b: nat)
    requires |t| <= a <= b <= |s|
    ensures Splice(s, 0, t)[a..b] == s[a..b]
  {
    var r := Splice(s, 0, t);
    forall i | 0 <= i < b - a
      ensures r[a..b][i] == s[a..b][i]
    {
      assert r[a + i] == s[a + i];
    }
  }

  /** The spliced-in part of a splice is the inserted sequence. */
  lemma SpliceMiddle<X>(s: seq<X>, at: nat, t: seq<X>)
    requires at + |t| <= |s|
    ensures Splice(s, at, t)[at..at + |t|] == t
  {
    var r := Splice(s, at, t);
    forall i | 0 <= i < |t|
      ensures r[at..at + |t|][i] == t[i]
    {
      assert r[at + i] == t[i];
    }
  }

  /** A buffer that holds `t` from `at` on, and is otherwise as before, is `before` spliced with `t`. */
  lemma SpliceFrom<X>(after: seq<X>, before: seq<X>, at: nat, t: seq<X>)
    requires |after| == |before| && at + |t| <= |before|
    requires forall i :: 0 <= i < |t| ==> after[at + i] == t[i]
    requires forall j :: 0 <= j < |before| && !(at <= j < at + |t|) ==> after[j] == before[j]
    ensures after == Splice(before, at, t)
  {
    forall j | 0 <= j < |after|
      ensures after[j] == Splice(before, at, t)[j]
    {
      if at <= j < at + |t| {
        assert after[at + (j - at)] == t[j - at];
      }
    }
  }

  /**
   * A buffer whose slots for `n` frames after frame `offset` hold `v`, and which is
   * otherwise as before, is `before` spliced with `v`.
   */
  lemma SpliceBySlots<X>(after: seq<X>, before: seq<X>, offset: nat, v: seq<X>, nc: nat, n: nat)
    requires |after| == |before| && |v| == n * nc && offset * nc + n * nc <= |before|
    requires forall f, c :: 0 <= f < n && 0 <= c < nc ==> after[offset * nc + Slot(nc, n, f, c)] == v[Slot(nc, n, f, c)]
    requires forall j :: 0 <= j < |before| && !(offset * nc <= j < offset * nc + n * nc) ==> after[j] == before[j]
    ensures after == Splice(before, offset * nc, v)
  {
    forall j | 0 <= j < |after|
      ensures after[j] == Splice(before, offset * nc, v)[j]
    {
      if offset * nc <= j < offset * nc + n * nc {
        var f, c := Decompose(j - offset * nc, nc, n);
      }
    }
  }

  /**
   * `s` while a codec writes the `n`-frame block `block` at `at` channel by
   * channel: channels below `c` are written, channel `c` for its first `i`
   * frames, and every other slot still holds what `s` held.
   */
  ghost function Woven<X>(s: seq<X>, at: nat, block: seq<X>, nc: nat, n: nat, c: nat, i: nat): (r: seq<X>)
    requires at + |block| <= |s| && |block| == n * nc
    ensures |r| == |s|
  {
    seq(|s|, j requires 0 <= j < |s| =>
      if at <= j < at + n * nc && ((j - at) % nc < c || ((j - at) % nc == c && (j - at) / nc < i))
      then block[j - at] else s[j])
  }

  /** Before any channel is written the buffer is as it was. */
  lemma WovenStart<X>(s: seq<X>, at: nat, block: seq<X>, nc: nat, n: nat)
    requires at + |block| <= |s| && |block| == n * nc
    ensures Woven(s, at, block, nc, n, 0, 0) == s
  {
  }

  /** A channel written for all `n` frames is the next channel written for none. */
  lemma WovenNext<X>(s: seq<X>, at: nat, block: seq<X>, nc: nat, n: nat, c: nat)
    requires at + |block| <= |s| && |block| == n * nc
    ensures Woven(s, at, block, nc, n, c, n) == Woven(s, at, block, nc, n, c + 1, 0)
  {
    forall j | 0 <= j < |s|
      ensures Woven(s, at, block, nc, n, c, n)[j] == Woven(s, at, block, nc, n, c + 1, 0)[j]
    {
      if at <= j < at + n * nc {
        var f, d := Decompose(j - at, nc, n);
      }
    }
  }

  /** With every channel written, the buffer is `s` spliced with the block. */
  lemma WovenAll<X>(s: seq<X>, at: nat, block: seq<X>, nc: nat, n: nat)
    requires at + |block| <= |s| && |block| == n * nc
    ensures Woven(s, at, block, nc, n, nc, 0) == Splice(s, at, block)
  {
    forall j | 0 <= j < |s|
      ensures Woven(s, at, block, nc, n, nc, 0)[j] == Splice(s, at, block)[j]
    {
      if at <= j < at + n * nc {
        var f, d := Decompose(j - at, nc, n);
      }
    }
  }

  /** Writing frame `i` of channel `c` advances the writer by one slot. */
  lemma WovenStep<X>(s: seq<X>, at: nat, block: seq<X>, nc: nat, n: nat, c: nat, i: nat)
    requires at + |block| <= |s| && |block| == n * nc && c < nc && i < n
    ensures i * nc + c < |block| && at + i * nc + c < |s|
    ensures Woven(s, at, block, nc, n, c, i)[at + i * nc + c := block[i * nc + c]] == Woven(s, at, block, nc, n, c, i + 1)
  {
    var k := Slot(nc, n, i, c);
    SlotDivMod(nc, n, i, c);
    var a := Woven(s, at, block, nc, n, c, i)[at + k := block[k]];
    var b := Woven(s, at, block, nc, n, c, i + 1);
    forall j | 0 <= j < |s|
      ensures a[j] == b[j]
    {
      if at <= j < at + n * nc && j != at + k {
        var f, d := Decompose(j - at, nc, n);
      }
    }
  }

  /** The slot of frame `i` of channel `c` is not written before the writer reaches it. */
  lemma WovenUnwritten<X>(s: seq<X>, at: nat, block: seq<X>, nc: nat, n: nat, c: nat, i: nat, f: nat)
    requires at + |block| <= |s| && |block| == n * nc && c < nc && i <= f < n
    ensures at + f * nc + c < |s| && Woven(s, at, block, nc, n, c, i)[at + f * nc + c] == s[at + f * nc + c]
  {
    SlotDivMod(nc, n, f, c);
  }

  /** Before channel `c` is written, its column of the block's region is still that of `s`. */
  lemma WovenColumn<X>(s: seq<X>, at: nat, block: seq<X>, nc: nat, n: nat, c: nat)
    requires at + |block| <= |s| && |block| == n * nc && c < nc
    ensures Column(Woven(s, at, block, nc, n, c, 0)[at..at + n * nc], nc, c, n) == Column(s[at..at + n * nc], nc, c, n)
  {
    var a, b := Column(Woven(s, at, block, nc, n, c, 0)[at..at + n * nc], nc, c, n), Column(s[at..at + n * nc], nc, c, n);
    forall f | 0 <= f < n
      ensures a[f] == b[f]
    {
      WovenUnwritten(s, at, block, nc, n, c, 0, f);
    }
  }

  /** A channel whose column in the block is what `s` already holds needs no writing. */
  lemma WovenSkip<X>(s: seq<X>, at: nat, block: seq<X>, nc: nat, n: nat, c: nat)
    requires at + |block| <= |s| && |block| == n * nc && c < nc
    requires forall f :: 0 <= f < n ==> block[Slot(nc, n, f, c)] == s[at + Slot(nc, n, f, c)]
    ensures Woven(s, at, block, nc, n, c, 0) == Woven(s, at, block, nc, n, c, n)
  {
    forall j | 0 <= j < |s|
      ensures Woven(s, at, block, nc, n, c, 0)[j] == Woven(s, at, block, nc, n, c, n)[j]
    {
      if at <= j < at + n * nc {
        var f, d := Decompose(j - at, nc, n);
      }
    }
  }

  /** Two blocks spliced one after the other are their concatenation spliced. */
  lemma SpliceAppend<X>(s: seq<X>, at: nat, t: seq<X>, u: seq<X>)
    requires at + |t| + |u| <= |s|
    ensures Splice(Splice(s, at, t), at + |t|, u) == Splice(s, at, t + u)
  {
    var a, b := Splice(Splice(s, at, t), at + |t|, u), Splice(s, at, t + u);
    forall j | 0 <= j < |s|
      ensures a[j] == b[j]
    {
    }
  }

  /** `f` applied to every element: how a stateless codec maps a block. */
  function Map<X, Y>(f: X -> Y, s: seq<X>): (r: seq<Y>)
    ensures |r| == |s| && forall j :: 0 <= j < |s| ==> r[j] == f(s[j])
  {
    seq(|s|, j requires 0 <= j < |s| => f(s[j]))
  }

  /** Mapping commutes with taking a slice. */
  lemma MapSlice<X, Y>(f: X -> Y, s: seq<X>, a: nat, b: nat)
    requires a <= b <= |s|
    ensures Map(f, s[a..b]) == Map(f, s)[a..b]
  {
  }

  /** Channel `c` of the first `n` frames of an interleaved sequence. */
  function Column<X>(s: seq<X>, nc: nat, c: nat, n: nat): (col: seq<X>)
    requires c < nc && n * nc <= |s|
    ensures |col| == n
    ensures forall f :: 0 <= f < n ==> col[f] == s[Slot(nc, n, f, c)]
  {
    seq(n, f requires 0 <= f < n => s[Slot(nc, n, f, c)])
  }

  /** The column of the first `m` frames is a prefix of the column of `n >= m` frames. */
  lemma ColumnPrefix<X>(s: seq<X>, t: seq<X>, nc: nat, c: nat, m: nat, n: nat)
    requires c < nc && m <= n && n * nc <= |s| && m * nc <= |t| && t[..m * nc] == s[..m * nc]
    ensures Column(t, nc, c, m) == Column(s, nc, c, n)[..m]
  {
    MulMono(m, n, nc);
    forall f | 0 <= f < m
      ensures Column(t, nc, c, m)[f] == Column(s, nc, c, n)[f]
    {
      assert Slot(nc, m, f, c) == Slot(nc, n, f, c);
      assert t[..m * nc][Slot(nc, m, f, c)] == s[..m * nc][Slot(nc, m, f, c)];
    }
  }

  /** The column of `n` frames is that of the first `m` frames followed by that of the rest. */
  lemma ColumnSplit<X>(s: seq<X>, nc: nat, c: nat, m: nat, n: nat)
    requires c < nc && m <= n && n * nc <= |s|
    ensures m * nc <= |s| && (n - m) * nc <= |s[m * nc..]|
    ensures Column(s, nc, c, n) == Column(s, nc, c, m) + Column(s[m * nc..], nc, c, n - m)
  {
    MulMono(m, n, nc);
    var rest := s[m * nc..];
    assert |rest| == |s| - m * nc;
    assert (n - m) * nc == n * nc - m * nc;
    forall f | 0 <= f < n
      ensures Column(s, nc, c, n)[f] == (Column(s, nc, c, m) + Column(rest, nc, c, n - m))[f]
    {
      if f < m {
        assert Slot(nc, m, f, c) == Slot(nc, n, f, c);
      } else {
        SlotShift(nc, n - m, m, f - m, c);
      }
    }
  }

  // ----- Per-channel state machines -----

  /** The state reached by feeding `xs` to `step`, one value at a time, from state `s`. */
  function Final<S, T, U>(step: (S, T) -> (S, U), s: S, xs: seq<T>): S
    decreases |xs|
  {
    if xs == [] then s else step(Final(step, s, xs[..|xs| - 1]), xs[|xs| - 1]).0
  }

  /** The values `step` emits while `xs` is fed to it from state `s`, one per input. */
  function Outs<S, T, U>(step: (S, T) -> (S, U), s: S, xs: seq<T>): (r: seq<U>)
    ensures |r| == |xs|
    decreases |xs|
  {
    if xs == [] then []
    else Outs(step, s, xs[..|xs| - 1]) + [step(Final(step, s, xs[..|xs| - 1]), xs[|xs| - 1]).1]
  }

  /** Running a machine over `xs + ys` is running it over `xs`, then over `ys` from where it stopped. */
  lemma {:induction false} RunAppend<S, T, U>(step: (S, T) -> (S, U), s: S, xs: seq<T>, ys: seq<T>)
    ensures Final(step, s, xs + ys) == Final(step, Final(step, s, xs), ys)
    ensures Outs(step, s, xs + ys) == Outs(step, s, xs) + Outs(step, Final(step, s, xs), ys)
    decreases |ys|
  {
    if ys == [] {
      assert xs + ys == xs;
    } else {
      var ys' := ys[..|ys| - 1];
      assert (xs + ys)[..|xs + ys| - 1] == xs + ys';
      assert (xs + ys)[|xs + ys| - 1] == ys[|ys| - 1];
      RunAppend(step, s, xs, ys');
    }
  }

  /** One more input: the machine steps once from the state it had reached. */
  lemma RunSnoc<S, T, U>(step: (S, T) -> (S, U), s: S, xs: seq<T>, k: nat)
    requires k < |xs|
    ensures Final(step, s, xs[..k + 1]) == step(Final(step, s, xs[..k]), xs[k]).0
    ensures Outs(step, s, xs[..k + 1]) == Outs(step, s, xs[..k]) + [step(Final(step, s, xs[..k]), xs[k]).1]
  {
    assert xs[..k + 1][..k] == xs[..k];
  }

  /** The `k`-th output is the step taken from the state reached after the first `k` inputs. */
  lemma OutsAt<S, T, U>(step: (S, T) -> (S, U), s: S, xs: seq<T>, k: nat)
    requires k < |xs|
    ensures Outs(step, s, xs)[k] == step(Final(step, s, xs[..k]), xs[k]).1
  {
    OutsPrefix(step, s, xs, k + 1);
    RunSnoc(step, s, xs, k);
  }

  /** The outputs for a prefix of the input are the same prefix of the outputs. */
  lemma OutsPrefix<S, T, U>(step: (S, T) -> (S, U), s: S, xs: seq<T>, k: nat)
    requires k <= |xs|
    ensures Outs(step, s, xs[..k]) == Outs(step, s, xs)[..k]
  {
    var a := Outs(step, s, xs[..k]);
    var b := Outs(step, Final(step, s, xs[..k]), xs[k..]);
    RunAppend(step, s, xs[..k], xs[k..]);
    assert xs[..k] + xs[k..] == xs;
    assert Outs(step, s, xs) == a + b && |a| == k;
    assert (a + b)[..k] == a;
  }

  /** The interleaved outputs of one machine per channel, each fed its own column of `xs`. */
  ghost function RunAll<S, T, U>(step: (S, T) -> (S, U), states: seq<S>, xs: seq<T>, nc: nat, n: nat): (r: seq<U>)
    requires |states| == nc && n * nc <= |xs|
    ensures |r| == n * nc
  {
    seq(n * nc, j requires 0 <= j < n * nc =>
      var (f, c) := Decomposed(j, nc, n);
      Outs(step, states[c], Column(xs, nc, c, n))[f])
  }

  ghost function Decomposed(j: nat, nc: nat, n: nat): (fc: (nat, nat))
    requires j < n * nc
    ensures nc > 0 && fc.0 < n && fc.1 < nc && j == Slot(nc, n, fc.0, fc.1)
  {
    DecomposeAt(j, nc, n);
    (j / nc, j % nc)
  }

  /** The per-channel states after every channel machine has consumed its column of `n` frames. */
  ghost function FinalAll<S, T, U>(step: (S, T) -> (S, U), states: seq<S>, xs: seq<T>, nc: nat, n: nat): (r: seq<S>)
    requires |states| == nc && n * nc <= |xs|
    ensures |r| == nc
    ensures forall c :: 0 <= c < nc ==> r[c] == Final(step, states[c], Column(xs, nc, c, n))
  {
    seq(nc, c requires 0 <= c < nc => Final(step, states[c], Column(xs, nc, c, n)))
  }

  lemma RunAllAt<S, T, U>(step: (S, T) -> (S, U), states: seq<S>, xs: seq<T>, nc: nat, n: nat, f: nat, c: nat)
    requires |states| == nc && n * nc <= |xs| && f < n && c < nc
    ensures RunAll(step, states, xs, nc, n)[Slot(nc, n, f, c)] == Outs(step, states[c], Column(xs, nc, c, n))[f]
  {
    SlotDivMod(nc, n, f, c);
  }

  /**
   * Slot by slot: the output at frame `f` of channel `c` is one step of that
   * channel's machine from the state its first `f` inputs left it in.
   */
  lemma RunAllNext<S, T, U>(step: (S, T) -> (S, U), states: seq<S>, xs: seq<T>, nc: nat, n: nat, f: nat, c: nat)
    requires |states| == nc && n * nc <= |xs| && f < n && c < nc
    ensures f * nc + c < n * nc
    ensures RunAll(step, states, xs, nc, n)[f * nc + c]
         == step(Final(step, states[c], Column(xs, nc, c, n)[..f]), xs[f * nc + c]).1
    ensures Final(step, states[c], Column(xs, nc, c, n)[..f + 1])
         == step(Final(step, states[c], Column(xs, nc, c, n)[..f]), xs[f * nc + c]).0
  {
    var col := Column(xs, nc, c, n);
    RunAllAt(step, states, xs, nc, n, f, c);
    OutsPrefix(step, states[c], col, f + 1);
    RunSnoc(step, states[c], col, f);
  }

  /** A column of the whole input, fed completely, leaves its machine in the state FinalAll records. */
  lemma FinalAllAt<S, T, U>(step: (S, T) -> (S, U), states: seq<S>, xs: seq<T>, nc: nat, n: nat, c: nat)
    requires |states| == nc && n * nc <= |xs| && c < nc
    ensures FinalAll(step, states, xs, nc, n)[c] == Final(step, states[c], Column(xs, nc, c, n)[..n])
  {
    assert Column(xs, nc, c, n)[..n] == Column(xs, nc, c, n);
  }

  /** RunAll is characterised by its slots. */
  lemma RunAllBySlots<S, T, U>(step: (S, T) -> (S, U), states: seq<S>, xs: seq<T>, nc: nat, n: nat, v: seq<U>)
    requires |states| == nc && n * nc <= |xs| && |v| == n * nc
    requires forall f, c :: 0 <= f < n && 0 <= c < nc ==> v[Slot(nc, n, f, c)] == Outs(step, states[c], Column(xs, nc, c, n))[f]
    ensures v == RunAll(step, states, xs, nc, n)
  {
    forall f, c | 0 <= f < n && 0 <= c < nc
      ensures v[Slot(nc, n, f, c)] == RunAll(step, states, xs, nc, n)[Slot(nc, n, f, c)]
    {
      RunAllAt(step, states, xs, nc, n, f, c);
    }
    EqualBySlots(v, RunAll(step, states, xs, nc, n), nc, n);
  }

  lemma RunAllSplitAt<S, T, U>(step: (S, T) -> (S, U), states: seq<S>, xs: seq<T>, nc: nat, m: nat, n: nat, f: nat, c: nat)
    requires |states| == nc && m <= n && n * nc <= |xs| && f < n && c < nc
    ensures m * nc <= |xs| && (n - m) * nc <= |xs[m * nc..]|
    ensures RunAll(step, states, xs, nc, n)[Slot(nc, n, f, c)]
         == (RunAll(step, states, xs, nc, m) + RunAll(step, FinalAll(step, states, xs, nc, m), xs[m * nc..], nc, n - m))[Slot(nc, n, f, c)]
  {
    MulMono(m, n, nc);
    MulSub(n, m, nc);
    var a := RunAll(step, states, xs, nc, m);
    var b := RunAll(step, FinalAll(step, states, xs, nc, m), xs[m * nc..], nc, n - m);
    RunAllAt(step, states, xs, nc, n, f, c);
    if f < m {
      RunAllSplitEarly(step, states, xs, nc, m, n, f, c);
      assert Slot(nc, n, f, c) == Slot(nc, m, f, c) < |a|;
    } else {
      RunAllSplitLate(step, states, xs, nc, m, n, f, c);
      MulSub(f, m, nc);
      assert Slot(nc, n, f, c) == |a| + Slot(nc, n - m, f - m, c);
    }
  }

  lemma RunAllSplitEarly<S, T, U>(step: (S, T) -> (S, U), states: seq<S>, xs: seq<T>, nc: nat, m: nat, n: nat, f: nat, c: nat)
    requires |states| == nc && m <= n && n * nc <= |xs| && f < m && c < nc
    ensures m * nc <= |xs|
    ensures Outs(step, states[c], Column(xs, nc, c, n))[f] == RunAll(step, states, xs, nc, m)[Slot(nc, m, f, c)]
  {
    MulMono(m, n, nc);
    ColumnPrefix(xs, xs, nc, c, m, n);
    OutsPrefix(step, states[c], Column(xs, nc, c, n), m);
    RunAllAt(step, states, xs, nc, m, f, c);
  }

  lemma RunAllSplitLate<S, T, U>(step: (S, T) -> (S, U), states: seq<S>, xs: seq<T>, nc: nat, m: nat, n: nat, f: nat, c: nat)
    requires |states| == nc && m <= f < n && n * nc <= |xs| && c < nc
    ensures m * nc <= |xs| && (n - m) * nc <= |xs[m * nc..]|
    ensures Outs(step, states[c], Column(xs, nc, c, n))[f]
         == RunAll(step, FinalAll(step, states, xs, nc, m), xs[m * nc..], nc, n - m)[Slot(nc, n - m, f - m, c)]
  {
    ColumnSplit(xs, nc, c, m, n);
    var rest := xs[m * nc..];
    RunAppend(step, states[c], Column(xs, nc, c, m), Column(rest, nc, c, n - m));
    RunAllAt(step, FinalAll(step, states, xs, nc, m), rest, nc, n - m, f - m, c);
  }

  lemma FinalAllSplit<S, T, U>(step: (S, T) -> (S, U), states: seq<S>, xs: seq<T>, nc: nat, m: nat, n: nat)
    requires |states| == nc && m <= n && n * nc <= |xs|
    ensures m * nc <= |xs| && (n - m) * nc <= |xs[m * nc..]|
    ensures FinalAll(step, states, xs, nc, n) == FinalAll(step, FinalAll(step, states, xs, nc, m), xs[m * nc..], nc, n - m)
  {
    MulMono(m, n, nc);
    assert (n - m) * nc == n * nc - m * nc;
    var rest := xs[m * nc..];
    var mid := FinalAll(step, states, xs, nc, m);
    forall c | 0 <= c < nc
      ensures FinalAll(step, states, xs, nc, n)[c] == FinalAll(step, mid, rest, nc, n - m)[c]
    {
      ColumnSplit(xs, nc, c, m, n);
      RunAppend(step, states[c], Column(xs, nc, c, m), Column(rest, nc, c, n - m));
    }
  }

  /**
   * Running every channel over `n` frames is running them over the first `m`
   * frames and then, from the states reached, over the remaining `n - m`.
   */
  lemma RunAllSplit<S, T, U>(step: (S, T) -> (S, U), states: seq<S>, xs: seq<T>, nc: nat, m: nat, n: nat)
    requires |states| == nc && m <= n && n * nc <= |xs|
    ensures m * nc <= |xs| && (n - m) * nc <= |xs[m * nc..]|
    ensures RunAll(step, states, xs, nc, n)
         == RunAll(step, states, xs, nc, m) + RunAll(step, FinalAll(step, states, xs, nc, m), xs[m * nc..], nc, n - m)
    ensures FinalAll(step, states, xs, nc, n) == FinalAll(step, FinalAll(step, states, xs, nc, m), xs[m * nc..], nc, n - m)
  {
    FinalAllSplit(step, states, xs, nc, m, n);
    var whole := RunAll(step, states, xs, nc, n);
    var joined := RunAll(step, states, xs, nc, m) + RunAll(step, FinalAll(step, states, xs, nc, m), xs[m * nc..], nc, n - m);
    forall f, c | 0 <= f < n && 0 <= c < nc
      ensures whole[Slot(nc, n, f, c)] == joined[Slot(nc, n, f, c)]
    {
      RunAllSplitAt(step, states, xs, nc, m, n, f, c);
    }
    EqualBySlots(whole, joined, nc, n);
  }

  /** RunAll over the first `m` frames is the prefix of RunAll over `n >= m` frames. */
  lemma RunAllPrefix<S, T, U>(step: (S, T) -> (S, U), states: seq<S>, xs: seq<T>, nc: nat, m: nat, n: nat)
    requires |states| == nc && m <= n && n * nc <= |xs|
    ensures m * nc <= n * nc
    ensures RunAll(step, states, xs, nc, n)[..m * nc] == RunAll(step, states, xs, nc, m)
  {
    RunAllSplit(step, states, xs, nc, m, n);
  }

  /**
   * Running the machines over `m` frames of `ys` that agree with the first
   * `m` frames of `xs`, and then, from the states they reach, over the rest
   * of `xs` up to frame `n`, gives their run over `n` frames of `xs`.
   */
  lemma RunAllResume<S, T, U>(step: (S, T) -> (S, U), states: seq<S>, xs: seq<T>, ys: seq<T>, nc: nat, m: nat, n: nat,
                              first: seq<U>, mid: seq<S>, tail: seq<T>, k: nat)
    requires |states| == nc && m <= n && n * nc <= |xs| && m * nc <= |ys| && m * nc <= |xs|
    requires xs[..m * nc] == ys[..m * nc] && tail == xs[m * nc..] && k == n - m
    requires first == RunAll(step, states, ys, nc, m) && mid == FinalAll(step, states, ys, nc, m)
    ensures |mid| == nc && k * nc <= |tail|
    ensures first + RunAll(step, mid, tail, nc, k) == RunAll(step, states, xs, nc, n)
  {
    RunAllOfPrefix(step, states, xs, ys, nc, m);
    RunAllSplit(step, states, xs, nc, m, n);
  }

  /** RunAll and FinalAll only look at the first `n` frames of their input. */
  lemma RunAllOfPrefix<S, T, U>(step: (S, T) -> (S, U), states: seq<S>, xs: seq<T>, ys: seq<T>, nc: nat, n: nat)
    requires |states| == nc && n * nc <= |xs| && n * nc <= |ys| && xs[..n * nc] == ys[..n * nc]
    ensures RunAll(step, states, xs, nc, n) == RunAll(step, states, ys, nc, n)
    ensures FinalAll(step, states, xs, nc, n) == FinalAll(step, states, ys, nc, n)
  {
    forall c | 0 <= c < nc
      ensures Column(xs, nc, c, n) == Column(ys, nc, c, n)
    {
      ColumnPrefix(xs, ys, nc, c, n, n);
    }
  }

  /** The machines run over `a`, `m` frames exactly, then over `b`: the run over `a + b`. */
  lemma RunAllConcat<S, T, U>(step: (S, T) -> (S, U), states: seq<S>, a: seq<T>, b: seq<T>, nc: nat, m: nat, n: nat)
    requires |states| == nc && |a| == m * nc && n * nc <= |b|
    ensures (m + n) * nc <= |a + b|
    ensures RunAll(step, states, a + b, nc, m + n)
         == RunAll(step, states, a, nc, m) + RunAll(step, FinalAll(step, states, a, nc, m), b, nc, n)
    ensures FinalAll(step, states, a + b, nc, m + n) == FinalAll(step, FinalAll(step, states, a, nc, m), b, nc, n)
  {
    MulAdd(m, n, nc);
    var xs := a + b;
    RunAllSplit(step, states, xs, nc, m, m + n);
    assert xs[..m * nc] == a[..m * nc];
    RunAllOfPrefix(step, states, xs, a, nc, m);
    assert xs[m * nc..] == b;
  }
}
